/**
 Merged paging of persisted analyses and frozen placeholders
 (index/inspections/people_result_query.py).

 Real rows stay in the database; each placeholder is located by a rank, the number of
 real rows in front of it. Slicing, indexing and iterating go through ranks and offsets.
 The reference is one plain list, `Merged`, and every access is proved equal to it.
 */
module MergedPaging {
  import opened Outcomes

  datatype Order = Asc | Desc

  /** The sort key (None is NULL), and the primary key of an analysis or the roster seat of a placeholder. */
  datatype Row = Row(key: Option<int>, id: nat)

  datatype Entry = Real(row: Row) | Missing(row: Row)

  /** A placeholder together with the number of real rows in front of it. */
  datatype Ranked = Ranked(rank: nat, row: Row)

  datatype AccessError = IndexError | ZeroStep

  // ---------------------------------------------------------------------------------------
  // The plain list
  // ---------------------------------------------------------------------------------------

  /** What is left of the merged list once `i` real rows and `j` placeholders have been emitted. */
  ghost function MergeFrom(rows: seq<Row>, ps: seq<Ranked>, i: nat, j: nat): (list: seq<Entry>)
    requires i <= |rows| && j <= |ps|
    decreases |rows| - i + |ps| - j
  {
    if j < |ps| && ps[j].rank <= i then [Missing(ps[j].row)] + MergeFrom(rows, ps, i, j + 1)
    else if i < |rows| then [Real(rows[i])] + MergeFrom(rows, ps, i + 1, j)
    else []
  }

  ghost function Merged(rows: seq<Row>, ps: seq<Ranked>): (list: seq<Entry>) {
    MergeFrom(rows, ps, 0, 0)
  }

  /** Ranks as `_positions` leaves them: in order, and none beyond the row count. */
  ghost predicate GoodRanks(ps: seq<Ranked>, n: nat) {
    && (forall j :: 0 <= j < |ps| ==> ps[j].rank <= n)
    && (forall j, k :: 0 <= j <= k < |ps| ==> ps[j].rank <= ps[k].rank)
  }

  /** After `i` rows and `j` placeholders the cursor stands at position `i + j`. */
  ghost predicate AtCursor(ps: seq<Ranked>, i: nat, j: nat) {
    && j <= |ps|
    && (forall k :: 0 <= k < j ==> ps[k].rank + k < i + j)
    && (forall k :: j <= k < |ps| ==> i + j <= ps[k].rank + k)
  }

  /** The number of placeholders whose position lies below `p`. */
  function CountBelow(ps: seq<Ranked>, p: int): (c: nat)
    ensures c <= |ps|
  {
    if ps == [] then 0
    else CountBelow(ps[..|ps| - 1], p) + if ps[|ps| - 1].rank + |ps| - 1 < p then 1 else 0
  }

  lemma {:induction false} MergeFromLength(rows: seq<Row>, ps: seq<Ranked>, i: nat, j: nat)
    requires i <= |rows| && j <= |ps| && GoodRanks(ps, |rows|)
    ensures |MergeFrom(rows, ps, i, j)| == |rows| - i + |ps| - j
    decreases |rows| - i + |ps| - j
  {
    if j < |ps| && ps[j].rank <= i {
      MergeFromLength(rows, ps, i, j + 1);
    } else if i < |rows| {
      MergeFromLength(rows, ps, i + 1, j);
    }
  }

  /** Positions are strictly increasing, so the placeholders below `p` are a prefix. */
  lemma {:induction false} CountBelowIsCursor(ps: seq<Ranked>, n: nat, p: nat)
    requires GoodRanks(ps, n) && p <= n + |ps|
    ensures CountBelow(ps, p) <= p <= n + CountBelow(ps, p)
    ensures AtCursor(ps, p - CountBelow(ps, p), CountBelow(ps, p))
  {
    if ps != [] {
      var last := |ps| - 1;
      var front := ps[..last];
      if p <= n + last {
        CountBelowIsCursor(front, n, p);
        assert forall k :: 0 <= k < last ==> front[k] == ps[k] && ps[k].rank <= ps[last].rank;
        if ps[last].rank + last < p {
          CountBelowAll(front, p);
        }
      } else {
        assert forall k :: 0 <= k < |ps| ==> ps[k].rank + k < p;
        CountBelowAll(ps, p);
      }
    }
  }

  lemma {:induction false} CountBelowAll(ps: seq<Ranked>, p: int)
    requires forall k :: 0 <= k < |ps| ==> ps[k].rank + k < p
    ensures CountBelow(ps, p) == |ps|
  {
    if ps != [] {
      CountBelowAll(ps[..|ps| - 1], p);
    }
  }

  /** A cursor that did not just pass a placeholder has passed a real row. */
  lemma CursorBack(ps: seq<Ranked>, n: nat, i: nat, j: nat)
    requires GoodRanks(ps, n) && AtCursor(ps, i, j) && i + j > 0
    requires j > 0 ==> ps[j - 1].rank + j - 1 != i + j - 1
    ensures i > 0 && AtCursor(ps, i - 1, j)
  {
    forall k | 0 <= k < j ensures ps[k].rank + k < i + j - 1 {
      assert ps[k].rank <= ps[j - 1].rank;
    }
  }

  lemma NextSuffix(list: seq<Entry>, p: nat, first: Entry, rest: seq<Entry>)
    requires p < |list| && list[p..] == [first] + rest
    ensures list[p + 1..] == rest
  {
    assert list[p + 1..] == list[p..][1..];
  }

  /** Dropping `p` entries of the merged list is the same as moving the cursor to `p`. */
  lemma {:induction false} DropIsCursor(rows: seq<Row>, ps: seq<Ranked>, i: nat, j: nat)
    requires GoodRanks(ps, |rows|) && i <= |rows| && AtCursor(ps, i, j)
    ensures |Merged(rows, ps)| == |rows| + |ps|
    ensures Merged(rows, ps)[i + j..] == MergeFrom(rows, ps, i, j)
    decreases i + j
  {
    MergeFromLength(rows, ps, 0, 0);
    if i + j == 0 {
      assert Merged(rows, ps)[0..] == Merged(rows, ps);
    } else if j > 0 && ps[j - 1].rank + j - 1 == i + j - 1 {
      DropIsCursor(rows, ps, i, j - 1);
      NextSuffix(Merged(rows, ps), i + j - 1, Missing(ps[j - 1].row), MergeFrom(rows, ps, i, j));
    } else {
      CursorBack(ps, |rows|, i, j);
      DropIsCursor(rows, ps, i - 1, j);
      MergeFromLength(rows, ps, i - 1, j);
      NextSuffix(Merged(rows, ps), i + j - 1, Real(rows[i - 1]), MergeFrom(rows, ps, i, j));
    }
  }

  /** The entry at a cursor is the next placeholder exactly when its position has come. */
  lemma EntryAtCursor(rows: seq<Row>, ps: seq<Ranked>, i: nat, j: nat)
    requires GoodRanks(ps, |rows|) && i <= |rows| && AtCursor(ps, i, j) && i + j < |rows| + |ps|
    ensures |Merged(rows, ps)| == |rows| + |ps|
    ensures j < |ps| && ps[j].rank + j == i + j
            ==> Merged(rows, ps)[i + j] == Missing(ps[j].row) && AtCursor(ps, i, j + 1)
    ensures !(j < |ps| && ps[j].rank + j == i + j)
            ==> i < |rows| && Merged(rows, ps)[i + j] == Real(rows[i]) && AtCursor(ps, i + 1, j)
  {
    DropIsCursor(rows, ps, i, j);
    MergeFromLength(rows, ps, i, j);
    assert Merged(rows, ps)[i + j] == Merged(rows, ps)[i + j..][0];
    if j < |ps| && ps[j].rank == i {
      forall k | j + 1 <= k < |ps| ensures i + j + 1 <= ps[k].rank + k {
        assert ps[j].rank <= ps[k].rank;
      }
    } else if j < |ps| {
      assert ps[j].rank <= |rows|;
      forall k | j <= k < |ps| ensures i + 1 + j <= ps[k].rank + k {
        assert ps[j].rank <= ps[k].rank;
      }
    }
  }

  /**
   Where everything lands: placeholder `j` is the entry at `rank + j`, once and nowhere else
   among the placeholders, and the real rows keep their order around it.
   */
  lemma PlaceholderPosition(rows: seq<Row>, ps: seq<Ranked>, j: nat)
    requires GoodRanks(ps, |rows|) && j < |ps|
    ensures |Merged(rows, ps)| == |rows| + |ps|
    ensures ps[j].rank + j < |rows| + |ps| && Merged(rows, ps)[ps[j].rank + j] == Missing(ps[j].row)
  {
    MergeFromLength(rows, ps, 0, 0);
    forall k | 0 <= k < j ensures ps[k].rank + k < ps[j].rank + j {
      assert ps[k].rank <= ps[j].rank;
    }
    forall k | j <= k < |ps| ensures ps[j].rank + j <= ps[k].rank + k {
      assert ps[j].rank <= ps[k].rank;
    }
    EntryAtCursor(rows, ps, ps[j].rank, j);
  }

  /** The real rows of a list, in the order they appear. */
  ghost function Reals(list: seq<Entry>): (rows: seq<Row>) {
    if list == [] then []
    else (if list[0].Real? then [list[0].row] else []) + Reals(list[1..])
  }

  ghost function Placeholders(list: seq<Entry>): (rows: seq<Row>) {
    if list == [] then []
    else (if list[0].Missing? then [list[0].row] else []) + Placeholders(list[1..])
  }

  ghost function RowsOf(ps: seq<Ranked>): (rows: seq<Row>)
    ensures |rows| == |ps| && forall k :: 0 <= k < |ps| ==> rows[k] == ps[k].row
  {
    seq(|ps|, k requires 0 <= k < |ps| => ps[k].row)
  }

  /** Real rows keep their order, and each placeholder appears exactly once, in rank order. */
  lemma {:induction false} MergedKeepsBoth(rows: seq<Row>, ps: seq<Ranked>, i: nat, j: nat)
    requires GoodRanks(ps, |rows|) && i <= |rows| && j <= |ps|
    ensures Reals(MergeFrom(rows, ps, i, j)) == rows[i..]
    ensures Placeholders(MergeFrom(rows, ps, i, j)) == RowsOf(ps)[j..]
    decreases |rows| - i + |ps| - j
  {
    var list := MergeFrom(rows, ps, i, j);
    if j < |ps| && ps[j].rank <= i {
      MergedKeepsBoth(rows, ps, i, j + 1);
      assert list[1..] == MergeFrom(rows, ps, i, j + 1);
      assert RowsOf(ps)[j..] == [ps[j].row] + RowsOf(ps)[j + 1..];
    } else if i < |rows| {
      MergedKeepsBoth(rows, ps, i + 1, j);
      assert list[1..] == MergeFrom(rows, ps, i + 1, j);
      assert rows[i..] == [rows[i]] + rows[i + 1..];
    }
  }

  // ---------------------------------------------------------------------------------------
  // Python slice arithmetic, and list slicing as the reference
  // ---------------------------------------------------------------------------------------

  datatype Slice = Slice(start: Option<int>, stop: Option<int>, step: Option<int>)

  function Clamp(bound: Option<int>, n: nat, lower: int, upper: int, missing: int): (index: int)
    requires lower <= upper && lower <= missing <= upper
    ensures lower <= index <= upper
  {
    match bound
    case None => missing
    case Some(b) =>
      if b < 0 then (if b + n < lower then lower else if b + n > upper then upper else b + n)
      else if b > upper then upper else if b < lower then lower else b
  }

  function StepOf(s: Slice): int {
    if s.step.Some? then s.step.value else 1
  }

  /** `slice.indices(n)` for a non-zero step. */
  function Indices(s: Slice, n: nat): (bounds: (int, int))
    requires StepOf(s) != 0
    ensures StepOf(s) > 0 ==> 0 <= bounds.0 <= n && 0 <= bounds.1 <= n
    ensures StepOf(s) < 0 ==> -1 <= bounds.0 < n && -1 <= bounds.1 < n
  {
    if StepOf(s) > 0 then (Clamp(s.start, n, 0, n, 0), Clamp(s.stop, n, 0, n, n))
    else (Clamp(s.start, n, -1, n - 1, n - 1), Clamp(s.stop, n, -1, n - 1, -1))
  }

  /** `[list[k] for k in range(start, stop, step)]`, the meaning of slicing a plain list. */
  ghost function Strided<T>(list: seq<T>, start: int, stop: int, step: int): (picked: seq<T>)
    requires step > 0 ==> 0 <= start && stop <= |list|
    requires step < 0 ==> start < |list| && -1 <= stop
    requires step != 0
    decreases if step > 0 then stop - start else start - stop
  {
    if step > 0 && start < stop then [list[start]] + Strided(list, start + step, stop, step)
    else if step < 0 && stop < start then [list[start]] + Strided(list, start + step, stop, step)
    else []
  }

  /** Picking one more entry moves it from the rest to what is already picked. */
  lemma StridedStep<T>(list: seq<T>, picked: seq<T>, k: int, stop: int, step: int)
    requires step > 0 ==> 0 <= k < stop <= |list|
    requires step < 0 ==> -1 <= stop < k < |list|
    requires step != 0
    ensures picked + Strided(list, k, stop, step) == picked + [list[k]] + Strided(list, k + step, stop, step)
  {
  }

  ghost function ListSlice<T>(list: seq<T>, s: Slice): (picked: Result<seq<T>, AccessError>) {
    if StepOf(s) == 0 then Err(ZeroStep)
    else
      var (start, stop) := Indices(s, |list|);
      Ok(Strided(list, start, stop, StepOf(s)))
  }

  ghost function ListIndex<T>(list: seq<T>, key: int): (entry: Result<T, AccessError>) {
    var k := if key < 0 then key + |list| else key;
    if 0 <= k < |list| then Ok(list[k]) else Err(IndexError)
  }

  lemma {:induction false} UnitStrideIsContiguous<T>(list: seq<T>, start: nat, stop: nat)
    requires start <= |list| && stop <= |list|
    ensures Strided(list, start, stop, 1) == if start < stop then list[start..stop] else []
    decreases stop - start
  {
    if start < stop {
      UnitStrideIsContiguous(list, start + 1, stop);
      assert list[start..stop] == [list[start]] + list[start + 1..stop];
      assert start + 1 == stop ==> list[start + 1..stop] == [];
    }
  }

  // ---------------------------------------------------------------------------------------
  // What a slice means, without any arithmetic on its bounds
  // ---------------------------------------------------------------------------------------

  /** A bound counts from the end when it is negative. */
  function Place(bound: int, n: nat): (position: int) {
    if bound < 0 then bound + n else bound
  }

  /** Position `k` of a list of `n` entries lies between the bounds of the slice, seen in its direction. */
  predicate Within(s: Slice, n: nat, k: int) {
    && 0 <= k < n
    && (s.start.Some? ==> if StepOf(s) > 0 then Place(s.start.value, n) <= k else k <= Place(s.start.value, n))
    && (s.stop.Some? ==> if StepOf(s) > 0 then k < Place(s.stop.value, n) else Place(s.stop.value, n) < k)
  }

  /** From the first position within the bounds, one step at a time, as long as they last. */
  ghost predicate IsPicked(s: Slice, n: nat, ps: seq<int>) {
    && (forall i :: 0 <= i < |ps| ==> Within(s, n, ps[i]))
    && (forall i :: 0 <= i < |ps| - 1 ==> ps[i + 1] == ps[i] + StepOf(s))
    && (ps != [] ==> !Within(s, n, ps[|ps| - 1] + StepOf(s)))
    && (forall k :: Within(s, n, k) ==> ps != [] && if StepOf(s) > 0 then ps[0] <= k else k <= ps[0])
  }

  ghost function EntriesAt<T>(list: seq<T>, ps: seq<int>): (entries: seq<T>)
    requires forall i :: 0 <= i < |ps| ==> 0 <= ps[i] < |list|
    ensures |entries| == |ps| && forall i :: 0 <= i < |ps| ==> entries[i] == list[ps[i]]
  {
    seq(|ps|, i requires 0 <= i < |ps| => list[ps[i]])
  }

  /** `picked` holds the entries at exactly the positions of the slice, in its order. */
  ghost predicate IsSlice<T>(list: seq<T>, s: Slice, picked: seq<T>) {
    exists ps :: IsPicked(s, |list|, ps) && picked == EntriesAt(list, ps)
  }

  ghost function Steps(start: int, stop: int, step: int): (ps: seq<int>)
    requires step != 0
    decreases if step > 0 then stop - start else start - stop
  {
    if (step > 0 && start < stop) || (step < 0 && stop < start) then [start] + Steps(start + step, stop, step) else []
  }

  lemma {:induction false} StepsStayBetween(start: int, stop: int, step: int)
    requires step != 0
    ensures forall k :: k in Steps(start, stop, step) ==> if step > 0 then start <= k < stop else stop < k <= start
    decreases if step > 0 then stop - start else start - stop
  {
    if (step > 0 && start < stop) || (step < 0 && stop < start) {
      StepsStayBetween(start + step, stop, step);
    }
  }

  lemma {:induction false} StepsAreEven(start: int, stop: int, step: int)
    requires step != 0
    ensures var ps := Steps(start, stop, step);
            && (forall i :: 0 <= i < |ps| - 1 ==> ps[i + 1] == ps[i] + step)
            && (ps != [] ==> ps[0] == start)
    decreases if step > 0 then stop - start else start - stop
  {
    if (step > 0 && start < stop) || (step < 0 && stop < start) {
      var rest := Steps(start + step, stop, step);
      StepsAreEven(start + step, stop, step);
      assert Steps(start, stop, step) == [start] + rest;
    }
  }

  lemma {:induction false} StepsReachTheEnd(start: int, stop: int, step: int)
    requires step != 0
    ensures var ps := Steps(start, stop, step);
            if ps == [] then (if step > 0 then stop <= start else start <= stop)
            else (if step > 0 then stop <= ps[|ps| - 1] + step else ps[|ps| - 1] + step <= stop)
    decreases if step > 0 then stop - start else start - stop
  {
    if (step > 0 && start < stop) || (step < 0 && stop < start) {
      StepsReachTheEnd(start + step, stop, step);
    }
  }

  lemma StepsAreRegular(start: int, stop: int, step: int)
    requires step != 0
    ensures var ps := Steps(start, stop, step);
            && (forall i :: 0 <= i < |ps| ==> if step > 0 then start <= ps[i] < stop else stop < ps[i] <= start)
            && (forall i :: 0 <= i < |ps| - 1 ==> ps[i + 1] == ps[i] + step)
            && (ps != [] ==>
                  ps[0] == start && if step > 0 then stop <= ps[|ps| - 1] + step else ps[|ps| - 1] + step <= stop)
            && (ps == [] ==> if step > 0 then stop <= start else start <= stop)
  {
    StepsStayBetween(start, stop, step);
    StepsAreEven(start, stop, step);
    StepsReachTheEnd(start, stop, step);
    var ps := Steps(start, stop, step);
    assert forall i :: 0 <= i < |ps| ==> ps[i] in ps;
  }

  lemma {:induction false} StridedIsAtSteps<T>(list: seq<T>, start: int, stop: int, step: int)
    requires step > 0 ==> 0 <= start && stop <= |list|
    requires step < 0 ==> start < |list| && -1 <= stop
    requires step != 0
    ensures forall i :: 0 <= i < |Steps(start, stop, step)| ==> 0 <= Steps(start, stop, step)[i] < |list|
    ensures Strided(list, start, stop, step) == EntriesAt(list, Steps(start, stop, step))
    decreases if step > 0 then stop - start else start - stop
  {
    StepsAreRegular(start, stop, step);
    if (step > 0 && start < stop) || (step < 0 && stop < start) {
      StridedIsAtSteps(list, start + step, stop, step);
      var rest := Steps(start + step, stop, step);
      assert EntriesAt(list, [start] + rest) == [list[start]] + EntriesAt(list, rest);
    }
  }

  lemma WithinIsBetween(s: Slice, n: nat, k: int)
    requires StepOf(s) != 0
    ensures Within(s, n, k) <==>
            if StepOf(s) > 0 then Indices(s, n).0 <= k < Indices(s, n).1 else Indices(s, n).1 < k <= Indices(s, n).0
  {
  }

  /** The clamped bounds pick exactly the positions that lie within the given ones. */
  lemma ListSliceIsExact<T>(list: seq<T>, s: Slice)
    ensures ListSlice(list, s).Err? <==> s.step == Some(0)
    ensures ListSlice(list, s).Ok? ==> IsSlice(list, s, ListSlice(list, s).value)
  {
    if StepOf(s) != 0 {
      var (start, stop) := Indices(s, |list|);
      var ps := Steps(start, stop, StepOf(s));
      StepsAreRegular(start, stop, StepOf(s));
      StridedIsAtSteps(list, start, stop, StepOf(s));
      forall k ensures Within(s, |list|, k) <==>
          if StepOf(s) > 0 then start <= k < stop else stop < k <= start
      {
        WithinIsBetween(s, |list|, k);
      }
      assert IsPicked(s, |list|, ps);
    }
  }

  lemma UnitSlice<T>(list: seq<T>, s: Slice, start: nat, stop: nat)
    requires StepOf(s) == 1 && Indices(s, |list|) == (start, stop)
    ensures ListSlice(list, s) == Ok(if start < stop then list[start..stop] else [])
  {
    UnitStrideIsContiguous(list, start, stop);
  }

  /** From a to b, even if b lies beyond the end. */
  lemma SliceFromTo<T>(list: seq<T>, a: int, b: int)
    requires 0 <= a <= |list| && a <= b
    ensures ListSlice(list, Slice(Some(a), Some(b), None)) == Ok(list[a..if b <= |list| then b else |list|])
  {
    UnitSlice(list, Slice(Some(a), Some(b), None), a, if b <= |list| then b else |list|);
    assert list[a..a] == [];
  }

  /** With one bound left out, and with both. */
  lemma SliceOpen<T>(list: seq<T>, a: int)
    requires 0 <= a <= |list|
    ensures ListSlice(list, Slice(Some(a), None, None)) == Ok(list[a..])
    ensures ListSlice(list, Slice(None, Some(a), None)) == Ok(list[..a])
    ensures ListSlice(list, Slice(None, None, None)) == Ok(list)
  {
    UnitSlice(list, Slice(Some(a), None, None), a, |list|);
    UnitSlice(list, Slice(None, Some(a), None), 0, a);
    UnitSlice(list, Slice(None, None, None), 0, |list|);
    assert list[a..|list|] == list[a..] && list[0..a] == list[..a] && list[0..|list|] == list;
    assert list[|list|..] == [] && list[..0] == [] && (|list| == 0 ==> list == []);
  }

  /** The last m entries, and all but the last m. */
  lemma SliceFromEnd<T>(list: seq<T>, m: int)
    requires 0 < m <= |list|
    ensures ListSlice(list, Slice(Some(-m), None, None)) == Ok(list[|list| - m..])
    ensures ListSlice(list, Slice(None, Some(-m), None)) == Ok(list[..|list| - m])
  {
    UnitSlice(list, Slice(Some(-m), None, None), |list| - m, |list|);
    UnitSlice(list, Slice(None, Some(-m), None), 0, |list| - m);
    assert list[|list| - m..|list|] == list[|list| - m..] && list[0..|list| - m] == list[..|list| - m];
    assert list[..0] == [];
  }

  /** All of it about one result: the error, the positions, and the plain page from a to b. */
  ghost predicate SliceMeans<T>(list: seq<T>, s: Slice, picked: Result<seq<T>, AccessError>) {
    && (picked.Err? <==> s.step == Some(0))
    && (picked.Ok? ==> IsSlice(list, s, picked.value))
    && (s.step.None? && s.start.Some? && s.stop.Some?
        && 0 <= s.start.value <= s.stop.value && s.start.value <= |list| ==>
          picked == Ok(list[s.start.value..if s.stop.value <= |list| then s.stop.value else |list|]))
  }

  lemma ListSliceMeans<T>(list: seq<T>, s: Slice)
    ensures SliceMeans(list, s, ListSlice(list, s))
  {
    ListSliceIsExact(list, s);
    if s.step.None? && s.start.Some? && s.stop.Some? && 0 <= s.start.value <= s.stop.value && s.start.value <= |list| {
      SliceFromTo(list, s.start.value, s.stop.value);
      assert s == Slice(Some(s.start.value), Some(s.stop.value), None);
    }
  }

  /** The slices of one size that a paginator asks for, the last one reaching beyond the end. */
  ghost function Pages<T>(list: seq<T>, size: nat, first: nat): (joined: seq<T>)
    requires size > 0 && first <= |list|
    decreases |list| - first
  {
    if first == |list| then []
    else
      ListSlice(list, Slice(Some(first), Some(first + size), None)).value
      + Pages(list, size, if first + size <= |list| then first + size else |list|)
  }

  lemma NextPage<T>(list: seq<T>, first: nat, next: nat)
    requires first <= next <= |list|
    ensures list[first..] == list[first..next] + list[next..]
  {
  }

  lemma {:induction false} PagesCoverTheList<T>(list: seq<T>, size: nat, first: nat)
    requires size > 0 && first <= |list|
    ensures Pages(list, size, first) == list[first..]
    decreases |list| - first
  {
    if first == |list| {
      assert list[first..] == [];
    } else {
      var next := if first + size <= |list| then first + size else |list|;
      SliceFromTo(list, first, first + size);
      assert Pages(list, size, first) == list[first..next] + Pages(list, size, next);
      PagesCoverTheList(list, size, next);
      NextPage(list, first, next);
    }
  }

  // ---------------------------------------------------------------------------------------
  // Sort orders and ranks
  // ---------------------------------------------------------------------------------------

  /** The database order: NULLs first when descending, last when ascending. */
  predicate Le(order: Order, a: Option<int>, b: Option<int>) {
    match order
    case Asc => b.None? || (a.Some? && a.value <= b.value)
    case Desc => a.None? || (b.Some? && a.value >= b.value)
  }

  /** The aggregate's filter: is a real row with this key counted in the rank of `value`? */
  predicate Counted(order: Order, key: Option<int>, value: Option<int>) {
    match value
    case None => order.Asc? || key.None?
    case Some(v) =>
      match order
      case Asc => key.Some? && key.value <= v
      case Desc => key.None? || key.value >= v
  }

  function RankOf(rows: seq<Row>, order: Order, value: Option<int>): (rank: nat)
    ensures rank <= |rows|
  {
    if rows == [] then 0
    else RankOf(rows[..|rows| - 1], order, value) + if Counted(order, rows[|rows| - 1].key, value) then 1 else 0
  }

  /** `order_by(key, pk)` in the requested direction. */
  ghost predicate DatabaseOrder(rows: seq<Row>, order: Order) {
    forall i, j :: 0 <= i < j < |rows| ==>
      Le(order, rows[i].key, rows[j].key) && (rows[i].key == rows[j].key ==> rows[i].id < rows[j].id)
  }

  /** Rows with equal keys stand in roster order. */
  ghost predicate TiesInRosterOrder(rows: seq<Row>) {
    forall i, j :: 0 <= i < j < |rows| && rows[i].key == rows[j].key ==> rows[i].id < rows[j].id
  }

  /** Ascending: values upwards, and whatever has no value comes last. Descending is the mirror image. */
  lemma OrderReads(a: int, b: int)
    ensures Le(Asc, Some(a), Some(b)) <==> a <= b
    ensures Le(Asc, Some(a), None) && !Le(Asc, None, Some(a))
    ensures Le(Desc, Some(a), Some(b)) <==> a >= b
    ensures Le(Desc, None, Some(a)) && !Le(Desc, Some(a), None)
  {
  }

  lemma CountedIsBefore(order: Order, key: Option<int>, value: Option<int>)
    ensures Counted(order, key, value) <==> Le(order, key, value)
  {
  }

  /** In a sorted table the rank of a value is a cut: counted rows in front, the others behind. */
  lemma {:induction false} RankIsACut(rows: seq<Row>, order: Order, value: Option<int>)
    requires DatabaseOrder(rows, order)
    ensures forall i :: 0 <= i < |rows| ==> (i < RankOf(rows, order, value) <==> Le(order, rows[i].key, value))
  {
    if rows != [] {
      var last := |rows| - 1;
      var rank := RankOf(rows[..last], order, value);
      RankIsACut(rows[..last], order, value);
      CountedIsBefore(order, rows[last].key, value);
      assert forall i :: 0 <= i < last ==> rows[..last][i] == rows[i];
      assert forall i :: 0 <= i < last ==> (i < rank <==> Le(order, rows[i].key, value));
      assert forall i :: 0 <= i < last ==> Le(order, rows[i].key, rows[last].key);
      if Le(order, rows[last].key, value) {
        if last > 0 {
          LeTransitive(order, rows[last - 1].key, rows[last].key, value);
        }
        assert rank == last;
      }
    }
  }

  lemma LeTransitive(order: Order, a: Option<int>, b: Option<int>, c: Option<int>)
    requires Le(order, a, b) && Le(order, b, c)
    ensures Le(order, a, c)
  {
  }

  lemma {:induction false} RankMonotone(rows: seq<Row>, order: Order, a: Option<int>, b: Option<int>)
    requires Le(order, a, b)
    ensures RankOf(rows, order, a) <= RankOf(rows, order, b)
  {
    if rows != [] {
      RankMonotone(rows[..|rows| - 1], order, a, b);
    }
  }

  /** A stable sort: `row` goes in front of the entries it ties with. */
  function Insert(order: Order, row: Row, rows: seq<Row>): (sorted: seq<Row>)
    ensures |sorted| == |rows| + 1 && multiset(sorted) == multiset{row} + multiset(rows)
  {
    if rows == [] || Le(order, row.key, rows[0].key) then
      assert multiset([row] + rows) == multiset{row} + multiset(rows);
      [row] + rows
    else
      assert rows == [rows[0]] + rows[1..];
      [rows[0]] + Insert(order, row, rows[1..])
  }

  function StableSort(order: Order, rows: seq<Row>): (sorted: seq<Row>)
    ensures |sorted| == |rows| && multiset(sorted) == multiset(rows)
  {
    if rows == [] then []
    else
      assert rows == [rows[0]] + rows[1..];
      Insert(order, rows[0], StableSort(order, rows[1..]))
  }

  lemma OrderWithFirst(order: Order, first: Row, rest: seq<Row>)
    requires DatabaseOrder(rest, order)
    requires forall k :: 0 <= k < |rest| ==>
               Le(order, first.key, rest[k].key) && (first.key == rest[k].key ==> first.id < rest[k].id)
    ensures DatabaseOrder([first] + rest, order)
  {
    var all := [first] + rest;
    assert forall k :: 1 <= k < |all| ==> all[k] == rest[k - 1];
  }

  lemma {:induction false} InsertKeepsOrder(order: Order, row: Row, rows: seq<Row>)
    requires DatabaseOrder(rows, order)
    requires forall k :: 0 <= k < |rows| && rows[k].key == row.key ==> row.id < rows[k].id
    ensures DatabaseOrder(Insert(order, row, rows), order)
  {
    if rows != [] && !Le(order, row.key, rows[0].key) {
      InsertKeepsOrder(order, row, rows[1..]);
      var rest := Insert(order, row, rows[1..]);
      assert Insert(order, row, rows) == [rows[0]] + rest;
      forall k | 0 <= k < |rest|
        ensures Le(order, rows[0].key, rest[k].key) && (rows[0].key == rest[k].key ==> rows[0].id < rest[k].id)
      {
        assert rest[k] in multiset(rest);
        if rest[k] != row {
          assert rest[k] in multiset(rows[1..]);
        }
      }
      OrderWithFirst(order, rows[0], rest);
    }
  }

  /** Sorting by key keeps ties in roster order, in both directions. */
  lemma {:induction false} SortIsStable(order: Order, rows: seq<Row>)
    requires TiesInRosterOrder(rows)
    ensures DatabaseOrder(StableSort(order, rows), order)
  {
    if rows != [] {
      SortIsStable(order, rows[1..]);
      var rest := StableSort(order, rows[1..]);
      forall k | 0 <= k < |rest| && rest[k].key == rows[0].key
        ensures rows[0].id < rest[k].id
      {
        assert rest[k] in multiset(rows[1..]);
      }
      InsertKeepsOrder(order, rows[0], rest);
    }
  }

  /** The second, stable sort of `_positions`: by rank. */
  function InsertByRank(p: Ranked, ps: seq<Ranked>): (sorted: seq<Ranked>)
    ensures |sorted| == |ps| + 1 && forall q :: q in sorted <==> q == p || q in ps
  {
    if ps == [] || p.rank <= ps[0].rank then [p] + ps
    else [ps[0]] + InsertByRank(p, ps[1..])
  }

  function SortByRank(ps: seq<Ranked>): (sorted: seq<Ranked>)
    ensures |sorted| == |ps| && forall q :: q in sorted <==> q in ps
  {
    if ps == [] then [] else InsertByRank(ps[0], SortByRank(ps[1..]))
  }

  lemma {:induction false} InsertKeepsRanks(p: Ranked, ps: seq<Ranked>, n: nat)
    requires GoodRanks(ps, n) && p.rank <= n
    ensures GoodRanks(InsertByRank(p, ps), n)
  {
    if ps != [] && p.rank > ps[0].rank {
      InsertKeepsRanks(p, ps[1..], n);
      var rest := InsertByRank(p, ps[1..]);
      forall k | 0 <= k < |rest| ensures ps[0].rank <= rest[k].rank {
        assert rest[k] in rest;
      }
    }
  }

  /** Whatever the ranks are, the second sort puts them in order. */
  lemma {:induction false} SortedRanksAreGood(ps: seq<Ranked>, n: nat)
    requires forall j :: 0 <= j < |ps| ==> ps[j].rank <= n
    ensures GoodRanks(SortByRank(ps), n)
  {
    if ps != [] {
      SortedRanksAreGood(ps[1..], n);
      InsertKeepsRanks(ps[0], SortByRank(ps[1..]), n);
    }
  }

  /** The placeholders of one rank, in the order they stand. */
  ghost function OfRank(ps: seq<Ranked>, rank: nat): (same: seq<Ranked>) {
    if ps == [] then [] else (if ps[0].rank == rank then [ps[0]] else []) + OfRank(ps[1..], rank)
  }

  lemma OfRankStep(p: Ranked, ps: seq<Ranked>, rank: nat)
    ensures OfRank([p] + ps, rank) == (if p.rank == rank then [p] else []) + OfRank(ps, rank)
  {
    assert ([p] + ps)[1..] == ps;
  }

  lemma {:induction false} InsertIsStable(p: Ranked, ps: seq<Ranked>, rank: nat)
    ensures OfRank(InsertByRank(p, ps), rank) == (if p.rank == rank then [p] else []) + OfRank(ps, rank)
  {
    if ps == [] || p.rank <= ps[0].rank {
      OfRankStep(p, ps, rank);
    } else {
      InsertIsStable(p, ps[1..], rank);
      OfRankStep(ps[0], InsertByRank(p, ps[1..]), rank);
      OfRankStep(ps[0], ps[1..], rank);
      assert [ps[0]] + ps[1..] == ps;
      assert ps[0].rank != rank || p.rank != rank;
    }
  }

  /** And it is stable: placeholders of one rank stay in the order of the first sort. */
  lemma {:induction false} SecondSortIsStable(ps: seq<Ranked>, rank: nat)
    ensures OfRank(SortByRank(ps), rank) == OfRank(ps, rank)
  {
    if ps != [] {
      SecondSortIsStable(ps[1..], rank);
      InsertIsStable(ps[0], SortByRank(ps[1..]), rank);
    }
  }

  lemma {:induction false} SortByRankOfSorted(ps: seq<Ranked>)
    requires forall j, k :: 0 <= j <= k < |ps| ==> ps[j].rank <= ps[k].rank
    ensures SortByRank(ps) == ps
  {
    if ps != [] {
      SortByRankOfSorted(ps[1..]);
    }
  }

  /** The database's count for a value, by whatever collation it compares with. */
  type Ranker = Option<int> -> nat

  function WithRanks(ranker: Ranker, placeholders: seq<Row>): (ps: seq<Ranked>)
    ensures |ps| == |placeholders|
    ensures forall k :: 0 <= k < |ps| ==> ps[k] == Ranked(ranker(placeholders[k].key), placeholders[k])
  {
    seq(|placeholders|, k requires 0 <= k < |placeholders| => Ranked(ranker(placeholders[k].key), placeholders[k]))
  }

  /** What `_positions` yields: placeholders sorted by value, then by rank. */
  function Located(ranker: Ranker, order: Order, placeholders: seq<Row>): (ps: seq<Ranked>) {
    SortByRank(WithRanks(ranker, StableSort(order, placeholders)))
  }

  /** For any ranks within the row count, the located placeholders are in rank order, and each is there. */
  lemma LocatedIsGood(ranker: Ranker, order: Order, placeholders: seq<Row>, n: nat)
    requires forall v :: ranker(v) <= n
    ensures GoodRanks(Located(ranker, order, placeholders), n)
    ensures |Located(ranker, order, placeholders)| == |placeholders|
    ensures forall p :: p in Located(ranker, order, placeholders)
              <==> p.row in placeholders && p.rank == ranker(p.row.key)
  {
    var sorted := StableSort(order, placeholders);
    var ps := WithRanks(ranker, sorted);
    SortedRanksAreGood(ps, n);
    SortKeepsRows(order, placeholders);
    forall p ensures p in ps <==> p.row in sorted && p.rank == ranker(p.row.key) {
      if p.row in sorted && p.rank == ranker(p.row.key) {
        var k :| 0 <= k < |sorted| && sorted[k] == p.row;
        assert ps[k] == p;
      }
    }
  }

  /** The counts of a database that compares as the model does. */
  function CountRank(rows: seq<Row>, order: Order): (ranker: Ranker)
    ensures forall v :: ranker(v) == RankOf(rows, order, v) <= |rows|
  {
    v => RankOf(rows, order, v)
  }

  /** With such counts the second sort finds nothing left to do. */
  lemma LocatedIsSortedByValue(rows: seq<Row>, order: Order, placeholders: seq<Row>)
    requires DatabaseOrder(rows, order) && TiesInRosterOrder(placeholders)
    ensures Located(CountRank(rows, order), order, placeholders)
            == WithRanks(CountRank(rows, order), StableSort(order, placeholders))
    ensures GoodRanks(Located(CountRank(rows, order), order, placeholders), |rows|)
  {
    SortIsStable(order, placeholders);
    var sorted := StableSort(order, placeholders);
    var ps := WithRanks(CountRank(rows, order), sorted);
    forall j, k | 0 <= j <= k < |ps| ensures ps[j].rank <= ps[k].rank {
      if j < k {
        RankMonotone(rows, order, sorted[j].key, sorted[k].key);
      }
    }
    SortByRankOfSorted(ps);
  }

  /** Requested direction first; then real rows before placeholders; then primary key or roster seat. */
  ghost predicate Before(order: Order, e: Entry, f: Entry) {
    && Le(order, e.row.key, f.row.key)
    && (e.row.key == f.row.key ==> (e.Real? && f.Missing?) || (e.Real? == f.Real? && e.row.id < f.row.id))
  }

  ghost predicate InOrder(order: Order, list: seq<Entry>) {
    forall a, b :: 0 <= a < b < |list| ==> Before(order, list[a], list[b])
  }

  /** What a reader sees of a list in order: values run in the direction asked for, and rows without one stand aside. */
  lemma InOrderReads(order: Order, list: seq<Entry>, a: nat, b: nat)
    requires InOrder(order, list) && a < b < |list|
    ensures var e, f := list[a], list[b];
            && (order.Asc? && e.row.key.None? ==> f.row.key.None?)
            && (order.Desc? && f.row.key.None? ==> e.row.key.None?)
            && (e.row.key.Some? && f.row.key.Some? ==>
                  if order.Asc? then e.row.key.value <= f.row.key.value else e.row.key.value >= f.row.key.value)
            && (e.row.key == f.row.key && e.Missing? ==> f.Missing?)
            && (e.row.key == f.row.key && e.Real? == f.Real? ==> e.row.id < f.row.id)
  {
    assert Before(order, list[a], list[b]);
  }

  lemma {:induction false} TailEntries(rows: seq<Row>, ps: seq<Ranked>, i: nat, j: nat, a: nat)
    requires GoodRanks(ps, |rows|) && i <= |rows| && j <= |ps| && a < |MergeFrom(rows, ps, i, j)|
    ensures var e := MergeFrom(rows, ps, i, j)[a];
            (exists k :: i <= k < |rows| && e == Real(rows[k]))
                || (exists k :: j <= k < |ps| && e == Missing(ps[k].row))
    decreases a
  {
    if a == 0 {
    } else if j < |ps| && ps[j].rank <= i {
      TailEntries(rows, ps, i, j + 1, a - 1);
    } else {
      TailEntries(rows, ps, i + 1, j, a - 1);
    }
  }

  /** The next placeholder precedes everything that is left behind it. */
  lemma PlaceholderGoesFirst(rows: seq<Row>, order: Order, sorted: seq<Row>, i: nat, j: nat, e: Entry)
    requires DatabaseOrder(rows, order) && DatabaseOrder(sorted, order)
    requires i <= |rows| && j < |sorted| && RankOf(rows, order, sorted[j].key) <= i
    requires (exists k :: i <= k < |rows| && e == Real(rows[k]))
             || (exists k :: j < k < |sorted| && e == Missing(sorted[k]))
    ensures Before(order, Missing(sorted[j]), e)
  {
    RankIsACut(rows, order, sorted[j].key);
  }

  /** The next real row precedes everything that is left behind it, ties with placeholders included. */
  lemma RealRowGoesFirst(rows: seq<Row>, order: Order, sorted: seq<Row>, i: nat, j: nat, e: Entry)
    requires DatabaseOrder(rows, order) && DatabaseOrder(sorted, order)
    requires i < |rows| && forall k :: j <= k < |sorted| ==> i < RankOf(rows, order, sorted[k].key)
    requires (exists k :: i < k < |rows| && e == Real(rows[k]))
             || (exists k :: j <= k < |sorted| && e == Missing(sorted[k]))
    ensures Before(order, Real(rows[i]), e)
  {
    if e.Missing? {
      RankIsACut(rows, order, e.row.key);
    }
  }

  ghost predicate Leads(order: Order, first: Entry, rest: seq<Entry>) {
    forall b :: 0 <= b < |rest| ==> Before(order, first, rest[b])
  }

  lemma InOrderWithFirst(order: Order, first: Entry, rest: seq<Entry>)
    requires InOrder(order, rest) && Leads(order, first, rest)
    ensures InOrder(order, [first] + rest)
  {
    var list := [first] + rest;
    forall a, b | 0 <= a < b < |list| ensures Before(order, list[a], list[b]) {
      assert list[b] == rest[b - 1] && (a > 0 ==> list[a] == rest[a - 1]);
    }
  }

  lemma PlaceholderLeads(rows: seq<Row>, order: Order, sorted: seq<Row>, i: nat, j: nat)
    requires DatabaseOrder(rows, order) && DatabaseOrder(sorted, order)
    requires GoodRanks(WithRanks(CountRank(rows, order), sorted), |rows|)
    requires i <= |rows| && j < |sorted| && RankOf(rows, order, sorted[j].key) <= i
    ensures Leads(order, Missing(sorted[j]), MergeFrom(rows, WithRanks(CountRank(rows, order), sorted), i, j + 1))
  {
    var ps := WithRanks(CountRank(rows, order), sorted);
    var rest := MergeFrom(rows, ps, i, j + 1);
    forall b | 0 <= b < |rest| ensures Before(order, Missing(sorted[j]), rest[b]) {
      TailEntries(rows, ps, i, j + 1, b);
      PlaceholderGoesFirst(rows, order, sorted, i, j, rest[b]);
    }
  }

  lemma RealRowLeads(rows: seq<Row>, order: Order, sorted: seq<Row>, i: nat, j: nat)
    requires DatabaseOrder(rows, order) && DatabaseOrder(sorted, order)
    requires GoodRanks(WithRanks(CountRank(rows, order), sorted), |rows|)
    requires i < |rows| && j <= |sorted| && (j < |sorted| ==> i < RankOf(rows, order, sorted[j].key))
    ensures Leads(order, Real(rows[i]), MergeFrom(rows, WithRanks(CountRank(rows, order), sorted), i + 1, j))
  {
    var ps := WithRanks(CountRank(rows, order), sorted);
    var rest := MergeFrom(rows, ps, i + 1, j);
    forall k | j <= k < |sorted| ensures i < RankOf(rows, order, sorted[k].key) {
      assert ps[j].rank <= ps[k].rank;
    }
    forall b | 0 <= b < |rest| ensures Before(order, Real(rows[i]), rest[b]) {
      TailEntries(rows, ps, i + 1, j, b);
      RealRowGoesFirst(rows, order, sorted, i, j, rest[b]);
    }
  }

  lemma {:induction false} MergeIsSorted(rows: seq<Row>, order: Order, sorted: seq<Row>, i: nat, j: nat)
    requires DatabaseOrder(rows, order) && DatabaseOrder(sorted, order)
    requires GoodRanks(WithRanks(CountRank(rows, order), sorted), |rows|)
    requires i <= |rows| && j <= |sorted|
    ensures InOrder(order, MergeFrom(rows, WithRanks(CountRank(rows, order), sorted), i, j))
    decreases |rows| - i + |sorted| - j
  {
    var ps := WithRanks(CountRank(rows, order), sorted);
    if j < |ps| && ps[j].rank <= i {
      MergeIsSorted(rows, order, sorted, i, j + 1);
      PlaceholderLeads(rows, order, sorted, i, j);
      InOrderWithFirst(order, Missing(sorted[j]), MergeFrom(rows, ps, i, j + 1));
    } else if i < |rows| {
      MergeIsSorted(rows, order, sorted, i + 1, j);
      RealRowLeads(rows, order, sorted, i, j);
      InOrderWithFirst(order, Real(rows[i]), MergeFrom(rows, ps, i + 1, j));
    }
  }

  /** The merged list is sorted in the requested direction, ties included. */
  lemma MergedListIsSorted(rows: seq<Row>, order: Order, placeholders: seq<Row>)
    requires DatabaseOrder(rows, order) && TiesInRosterOrder(placeholders)
    ensures InOrder(order, Merged(rows, Located(CountRank(rows, order), order, placeholders)))
  {
    LocatedIsSortedByValue(rows, order, placeholders);
    SortIsStable(order, placeholders);
    MergeIsSorted(rows, order, StableSort(order, placeholders), 0, 0);
  }

  // ---------------------------------------------------------------------------------------
  // The rows object
  // ---------------------------------------------------------------------------------------

  const RANK_BATCH := 100

  /** `ranker` is what the database counts for a value; nothing is asked of it but that it counts rows of the table. */
  datatype PeopleResultRows =
    PeopleResultRows(queryset: seq<Row>, placeholders: seq<Row>, order: Order, ranker: Ranker)
  {

    ghost predicate CountsRows() {
      forall v :: ranker(v) <= |queryset|
    }

    ghost function View(): (list: seq<Entry>) {
      Merged(queryset, Located(ranker, order, placeholders))
    }

    function Count(): (count: nat)
      requires CountsRows()
      ensures count == |View()|
    {
      LocatedIsGood(ranker, order, placeholders, |queryset|);
      MergeFromLength(queryset, Located(ranker, order, placeholders), 0, 0);
      |queryset| + |placeholders|
    }

    /** Ranks are fetched once per distinct value, in batches of one hundred. */
    method Positions() returns (positions: seq<Ranked>)
      ensures positions == Located(ranker, order, placeholders)
    {
      if placeholders == [] {
        return [];
      }
      var sorted := StableSort(order, placeholders);
      var values := [];
      for k := 0 to |sorted|
        invariant forall i :: 0 <= i < k ==> sorted[i].key in values
      {
        if sorted[k].key !in values {
          values := values + [sorted[k].key];
        }
      }
      var ranks: map<Option<int>, nat> := map[];
      var start := 0;
      while start < |values|
        invariant 0 <= start
        invariant forall i :: 0 <= i < start && i < |values| ==> values[i] in ranks
        invariant forall v :: v in ranks ==> ranks[v] == ranker(v)
      {
        var stop := if start + RANK_BATCH < |values| then start + RANK_BATCH else |values|;
        for i := start to stop
          invariant forall h :: 0 <= h < i ==> values[h] in ranks
          invariant forall v :: v in ranks ==> ranks[v] == ranker(v)
        {
          ranks := ranks[values[i] := ranker(values[i])];
        }
        start := start + RANK_BATCH;
      }
      assert forall i :: 0 <= i < |sorted| ==> sorted[i].key in ranks;
      var located := [];
      for k := 0 to |sorted|
        invariant located == WithRanks(ranker, sorted)[..k]
      {
        assert sorted[k].key in values;
        located := located + [Ranked(ranks[sorted[k].key], sorted[k])];
      }
      assert located == WithRanks(ranker, sorted);
      positions := SortByRank(located);
    }

    /** The unit-step branch of a slice. */
    method Page(start: nat, stop: nat) returns (page: seq<Entry>)
      requires CountsRows() && start <= |View()| && stop <= |View()|
      ensures page == if start < stop then View()[start..stop] else []
    {
      if stop <= start {
        return [];
      }
      var ps := Positions();
      LocatedIsGood(ranker, order, placeholders, |queryset|);
      MergeFromLength(queryset, ps, 0, 0);
      page := PageOf(queryset, ps, start, stop);
    }

    method GetIndex(key: int) returns (entry: Result<Entry, AccessError>)
      requires CountsRows()
      ensures entry == ListIndex(View(), key)
      ensures 0 <= key < |View()| ==> entry == Ok(View()[key])
      ensures -|View()| <= key < 0 ==> entry == Ok(View()[|View()| + key])
      ensures key < -|View()| || |View()| <= key ==> entry == Err(IndexError)
    {
      var k := if key < 0 then key + Count() else key;
      if k < 0 || k >= Count() {
        return Err(IndexError);
      }
      var page := Page(k, k + 1);
      return Ok(page[0]);
    }

    method GetSlice(s: Slice) returns (picked: Result<seq<Entry>, AccessError>)
      requires CountsRows()
      ensures picked == ListSlice(View(), s)
      ensures SliceMeans(View(), s, picked)
    {
      ListSliceMeans(View(), s);
      if StepOf(s) == 0 {
        return Err(ZeroStep);
      }
      var (start, stop) := Indices(s, Count());
      if StepOf(s) != 1 {
        var out := GetStrided(start, stop, StepOf(s));
        return Ok(out);
      }
      UnitStrideIsContiguous(View(), start, stop);
      var page := Page(start, stop);
      return Ok(page);
    }

    /** Any other step indexes one entry at a time. */
    method GetStrided(start: int, stop: int, step: int) returns (out: seq<Entry>)
      requires CountsRows() && step != 0
      requires step > 0 ==> 0 <= start && stop <= |View()|
      requires step < 0 ==> start < |View()| && -1 <= stop
      ensures out == Strided(View(), start, stop, step)
    {
      ghost var list := View();
      out := [];
      var k := start;
      while if step > 0 then k < stop else stop < k
        invariant step > 0 ==> 0 <= k
        invariant step < 0 ==> k < |list|
        invariant out + Strided(list, k, stop, step) == Strided(list, start, stop, step)
        decreases if step > 0 then stop - k else k - stop
      {
        StridedStep(list, out, k, stop, step);
        var entry := GetIndex(k);
        out := out + [entry.value];
        k := k + step;
      }
    }

    /** The CSV iterator: real rows are streamed, placeholders are slotted in between. */
    method Iterate() returns (out: seq<Entry>)
      requires CountsRows()
      ensures out == View()
    {
      var ps := Positions();
      LocatedIsGood(ranker, order, placeholders, |queryset|);
      out := Stream(queryset, ps);
    }
  }

  /** What has been emitted, followed by what is left at the cursor, is the whole list. */
  ghost predicate Emitted(out: seq<Entry>, rows: seq<Row>, ps: seq<Ranked>, i: nat, j: nat)
    requires i <= |rows| && j <= |ps|
  {
    out + MergeFrom(rows, ps, i, j) == Merged(rows, ps)
  }

  lemma RealIsNext(out: seq<Entry>, rows: seq<Row>, ps: seq<Ranked>, i: nat, j: nat)
    requires i < |rows| && j < |ps| && i < ps[j].rank && Emitted(out, rows, ps, i, j)
    ensures Emitted(out + [Real(rows[i])], rows, ps, i + 1, j)
  {
    assert out + MergeFrom(rows, ps, i, j) == out + [Real(rows[i])] + MergeFrom(rows, ps, i + 1, j);
  }

  lemma PlaceholderIsNext(out: seq<Entry>, rows: seq<Row>, ps: seq<Ranked>, i: nat, j: nat)
    requires i <= |rows| && j < |ps| && ps[j].rank <= i && Emitted(out, rows, ps, i, j)
    ensures Emitted(out + [Missing(ps[j].row)], rows, ps, i, j + 1)
  {
    assert out + MergeFrom(rows, ps, i, j) == out + [Missing(ps[j].row)] + MergeFrom(rows, ps, i, j + 1);
  }

  /** The iterator's inner loop: real rows up to the position of placeholder `j`. */
  method StreamReals(rows: seq<Row>, ps: seq<Ranked>, j: nat, before: seq<Entry>, first: nat)
    returns (out: seq<Entry>, actual: nat)
    requires j < |ps| && first <= ps[j].rank <= |rows| && Emitted(before, rows, ps, first, j)
    ensures actual == ps[j].rank && Emitted(out, rows, ps, actual, j)
  {
    out, actual := before, first;
    var position := first + j;
    while position < ps[j].rank + j
      invariant position == actual + j && actual <= ps[j].rank
      invariant Emitted(out, rows, ps, actual, j)
    {
      RealIsNext(out, rows, ps, actual, j);
      out := out + [Real(rows[actual])];
      actual := actual + 1;
      position := position + 1;
    }
  }

  /** The iterator's loops, for any ranks that stay within the row count. */
  method Stream(rows: seq<Row>, ps: seq<Ranked>) returns (out: seq<Entry>)
    requires GoodRanks(ps, |rows|)
    ensures out == Merged(rows, ps)
  {
    out := [];
    var actual: nat := 0;
    for j := 0 to |ps|
      invariant actual <= |rows| && (j < |ps| ==> actual <= ps[j].rank)
      invariant Emitted(out, rows, ps, actual, j)
    {
      assert ps[j].rank <= |rows|;
      out, actual := StreamReals(rows, ps, j, out, actual);
      PlaceholderIsNext(out, rows, ps, actual, j);
      out := out + [Missing(ps[j].row)];
      assert j + 1 < |ps| ==> ps[j].rank <= ps[j + 1].rank;
    }
    RestIsReal(rows, ps, actual);
    out := out + RealsFrom(rows, actual);
  }

  function RealsFrom(rows: seq<Row>, i: nat): (list: seq<Entry>)
    requires i <= |rows|
    ensures |list| == |rows| - i && forall k :: 0 <= k < |list| ==> list[k] == Real(rows[i + k])
  {
    seq(|rows| - i, k requires 0 <= k < |rows| - i => Real(rows[i + k]))
  }

  lemma {:induction false} RestIsReal(rows: seq<Row>, ps: seq<Ranked>, i: nat)
    requires i <= |rows|
    ensures MergeFrom(rows, ps, i, |ps|) == RealsFrom(rows, i)
    decreases |rows| - i
  {
    if i < |rows| {
      RestIsReal(rows, ps, i + 1);
      assert RealsFrom(rows, i) == [Real(rows[i])] + RealsFrom(rows, i + 1);
    }
  }

  /** The placeholders of a page, by position. */
  ghost function Inserted(ps: seq<Ranked>, start: nat, stop: nat): (inserted: map<nat, Row>) {
    if ps == [] then map[]
    else
      var last := |ps| - 1;
      var rest := Inserted(ps[..last], start, stop);
      if start <= ps[last].rank + last < stop then rest[ps[last].rank + last := ps[last].row] else rest
  }

  lemma {:induction false} InsertedAt(ps: seq<Ranked>, n: nat, start: nat, stop: nat, p: nat, h: nat)
    requires GoodRanks(ps, n) && start <= p < stop && h <= |ps|
    requires forall k :: 0 <= k < h ==> ps[k].rank + k < p
    requires forall k :: h < k < |ps| ==> p < ps[k].rank + k
    ensures p in Inserted(ps, start, stop) <==> h < |ps| && ps[h].rank + h == p
    ensures p in Inserted(ps, start, stop) ==> Inserted(ps, start, stop)[p] == ps[h].row
  {
    if ps != [] {
      var last := |ps| - 1;
      var front := ps[..last];
      if h <= last {
        InsertedAt(front, n, start, stop, p, h);
      } else {
        InsertedAt(front, n, start, stop, p, last);
      }
    }
  }

  /** One more placeholder adds its position, which is new, to the page or to the count. */
  lemma PrefixStep(ps: seq<Ranked>, n: nat, start: nat, stop: nat, k: nat)
    requires GoodRanks(ps, n) && k < |ps|
    ensures forall p :: CountBelow(ps[..k + 1], p) == CountBelow(ps[..k], p) + if ps[k].rank + k < p then 1 else 0
    ensures start <= ps[k].rank + k < stop ==> ps[k].rank + k !in Inserted(ps[..k], start, stop)
    ensures Inserted(ps[..k + 1], start, stop) ==
            if start <= ps[k].rank + k < stop then Inserted(ps[..k], start, stop)[ps[k].rank + k := ps[k].row]
            else Inserted(ps[..k], start, stop)
  {
    assert ps[..k + 1][..k] == ps[..k];
    assert forall h :: 0 <= h < k ==> ps[h].rank <= ps[k].rank;
    if start <= ps[k].rank + k < stop {
      InsertedAt(ps[..k], n, start, stop, ps[k].rank + k, k);
    }
  }

  /** The loop over the positions: placeholders before the page are counted, those on it are kept. */
  method SplitPositions(ps: seq<Ranked>, n: nat, start: nat, stop: nat) returns (before: nat, inserted: map<nat, Row>)
    requires GoodRanks(ps, n) && start < stop
    ensures before == CountBelow(ps, start) && inserted == Inserted(ps, start, stop)
    ensures before + |inserted| == CountBelow(ps, stop)
  {
    before, inserted := 0, map[];
    for k := 0 to |ps|
      invariant before == CountBelow(ps[..k], start)
      invariant inserted == Inserted(ps[..k], start, stop)
      invariant before + |inserted| == CountBelow(ps[..k], stop)
    {
      PrefixStep(ps, n, start, stop, k);
      var position := ps[k].rank + k;
      if position < start {
        before := before + 1;
      } else if position < stop {
        inserted := inserted[position := ps[k].row];
      }
    }
    assert ps[..|ps|] == ps;
  }

  /**
   One page of the merged list, for any ranks that stay within the row count: the page's real
   rows come from a single offset slice of the database.
   */
  method PageOf(rows: seq<Row>, ps: seq<Ranked>, start: nat, stop: nat) returns (page: seq<Entry>)
    requires GoodRanks(ps, |rows|) && start < stop <= |Merged(rows, ps)|
    ensures page == Merged(rows, ps)[start..stop]
  {
    MergeFromLength(rows, ps, 0, 0);
    var before, inserted := SplitPositions(ps, |rows|, start, stop);
    CountBelowIsCursor(ps, |rows|, start);
    CountBelowIsCursor(ps, |rows|, stop);
    RealsBelowGrow(ps, |rows|, start, stop);
    var offset := start - before;
    var length := stop - start - |inserted|;
    var actual := rows[offset..offset + length];
    page := FillPage(rows, ps, start, stop, inserted, actual);
  }

  /** A position of the page holds the placeholder inserted there, or else the next real row. */
  lemma SlotOfPage(rows: seq<Row>, ps: seq<Ranked>, start: nat, stop: nat, p: nat)
    requires GoodRanks(ps, |rows|) && start <= p < stop <= |rows| + |ps|
    ensures |Merged(rows, ps)| == |rows| + |ps| && CountBelow(ps, p) <= p
    ensures p in Inserted(ps, start, stop) ==>
              && Merged(rows, ps)[p] == Missing(Inserted(ps, start, stop)[p])
              && CountBelow(ps, p + 1) == CountBelow(ps, p) + 1
    ensures p !in Inserted(ps, start, stop) ==>
              && CountBelow(ps, p + 1) == CountBelow(ps, p)
              && p - CountBelow(ps, p) < stop - CountBelow(ps, stop) <= |rows|
              && Merged(rows, ps)[p] == Real(rows[p - CountBelow(ps, p)])
  {
    EntryAtPosition(rows, ps, p, stop);
    CountBelowIsCursor(ps, |rows|, p);
    InsertedAt(ps, |rows|, start, stop, p, CountBelow(ps, p));
  }

  /** The comprehension over the page: a placeholder where one is inserted, else the next real row. */
  method FillPage(rows: seq<Row>, ps: seq<Ranked>, start: nat, stop: nat, inserted: map<nat, Row>, actual: seq<Row>)
    returns (page: seq<Entry>)
    requires GoodRanks(ps, |rows|) && start < stop <= |Merged(rows, ps)|
    requires inserted == Inserted(ps, start, stop)
    requires CountBelow(ps, start) <= start && start - CountBelow(ps, start) <= stop - CountBelow(ps, stop) <= |rows|
    requires actual == rows[start - CountBelow(ps, start)..stop - CountBelow(ps, stop)]
    ensures page == Merged(rows, ps)[start..stop]
  {
    MergeFromLength(rows, ps, 0, 0);
    ghost var list := Merged(rows, ps);
    page := [];
    var next := 0;
    for position := start to stop
      invariant start - CountBelow(ps, start) + next == position - CountBelow(ps, position)
      invariant page == list[start..position]
    {
      SlotOfPage(rows, ps, start, stop, position);
      assert list[start..position + 1] == list[start..position] + [list[position]];
      if position in inserted {
        page := page + [Missing(inserted[position])];
      } else {
        page := page + [Real(actual[next])];
        next := next + 1;
      }
    }
  }

  lemma CursorIsUnique(ps: seq<Ranked>, n: nat, i: nat, j: nat)
    requires GoodRanks(ps, n) && i + j <= n + |ps| && AtCursor(ps, i, j)
    ensures j == CountBelow(ps, i + j)
  {
    CountBelowIsCursor(ps, n, i + j);
    var c := CountBelow(ps, i + j);
    assert c < |ps| ==> ps[c].rank + c < i + j || j <= c;
    assert j < |ps| ==> i + j <= ps[j].rank + j;
  }

  /** Position `p` of the merged list, found by counting the placeholders below it. */
  lemma EntryAtPosition(rows: seq<Row>, ps: seq<Ranked>, p: nat, q: nat)
    requires GoodRanks(ps, |rows|) && p < q <= |rows| + |ps|
    ensures |Merged(rows, ps)| == |rows| + |ps|
    ensures var c := CountBelow(ps, p);
            if c < |ps| && ps[c].rank + c == p then
              && Merged(rows, ps)[p] == Missing(ps[c].row)
              && CountBelow(ps, p + 1) == c + 1
            else
              && (forall h :: 0 <= h < |ps| ==> ps[h].rank + h != p)
              && CountBelow(ps, p + 1) == c
              && c <= p && p - c < q - CountBelow(ps, q) <= |rows| && Merged(rows, ps)[p] == Real(rows[p - c])
  {
    var c := CountBelow(ps, p);
    CountBelowIsCursor(ps, |rows|, p);
    EntryAtCursor(rows, ps, p - c, c);
    CountBelowIsCursor(ps, |rows|, q);
    if c < |ps| && ps[c].rank + c == p {
      CursorIsUnique(ps, |rows|, p - c, c + 1);
    } else {
      CursorIsUnique(ps, |rows|, p + 1 - c, c);
      forall h | 0 <= h < |ps| ensures ps[h].rank + h != p {
        if c <= h { assert ps[c].rank <= ps[h].rank; }
      }
      RealsBelowGrow(ps, |rows|, p, q);
    }
  }

  lemma RealsBelowGrow(ps: seq<Ranked>, n: nat, p: nat, q: nat)
    requires GoodRanks(ps, n) && p <= q <= n + |ps|
    ensures p - CountBelow(ps, p) <= q - CountBelow(ps, q)
    ensures p < q && (forall h :: 0 <= h < |ps| ==> ps[h].rank + h != p)
            ==> p - CountBelow(ps, p) < q - CountBelow(ps, q)
  {
    CountBelowIsCursor(ps, n, p);
    CountBelowIsCursor(ps, n, q);
    var c, d := CountBelow(ps, p), CountBelow(ps, q);
    if c < d {
      assert p <= ps[c].rank + c;
      assert ps[d - 1].rank + d - 1 < q;
      assert ps[c].rank <= ps[d - 1].rank;
    }
  }

  // ---------------------------------------------------------------------------------------
  // Where placeholders come from: the roster, and filtering
  // ---------------------------------------------------------------------------------------

  /** An analysis of the task, with the person its report was enriched with. */
  datatype Analysis = Analysis(person: nat, row: Row)

  /** A roster entry: the person, and the sort key a placeholder for it would show. */
  datatype Person = Person(id: nat, key: Option<int>)

  function Matched(analyses: seq<Analysis>): (people: set<nat>)
    ensures forall a :: a in analyses ==> a.person in people
    ensures forall p :: p in people ==> exists a :: a in analyses && a.person == p
  {
    set k | 0 <= k < |analyses| :: analyses[k].person
  }

  /** One placeholder per roster entry without an analysis; its id is its roster seat. */
  function MissingRows(analyses: seq<Analysis>, roster: seq<Person>): (rows: seq<Row>) {
    if roster == [] then []
    else
      var last := |roster| - 1;
      MissingRows(analyses, roster[..last]) +
      if roster[last].id in Matched(analyses) then [] else [Row(roster[last].key, last)]
  }

  /** Each roster seat has an analysis or is exactly one placeholder: seats are strictly increasing. */
  lemma {:induction false} RosterIsCovered(analyses: seq<Analysis>, roster: seq<Person>)
    ensures forall i, j :: 0 <= i < j < |MissingRows(analyses, roster)| ==>
              MissingRows(analyses, roster)[i].id < MissingRows(analyses, roster)[j].id
    ensures forall p :: p in MissingRows(analyses, roster) <==>
              p.id < |roster| && p.key == roster[p.id].key && roster[p.id].id !in Matched(analyses)
  {
    if roster != [] {
      var last := |roster| - 1;
      var front := MissingRows(analyses, roster[..last]);
      RosterIsCovered(analyses, roster[..last]);
      assert forall k :: 0 <= k < last ==> roster[..last][k] == roster[k];
      forall i | 0 <= i < |front| ensures front[i].id < last {
        assert front[i] in front;
      }
    }
  }

  function Keep<T(!new)>(rows: seq<T>, wanted: T -> bool): (kept: seq<T>)
    ensures forall r :: r in kept <==> r in rows && wanted(r)
  {
    if rows == [] then []
    else (if wanted(rows[0]) then [rows[0]] else []) + Keep(rows[1..], wanted)
  }

  lemma {:induction false} KeepPreservesTies(rows: seq<Row>, wanted: Row -> bool)
    requires TiesInRosterOrder(rows)
    ensures TiesInRosterOrder(Keep(rows, wanted))
  {
    if rows != [] {
      KeepPreservesTies(rows[1..], wanted);
      var rest := Keep(rows[1..], wanted);
      forall i | 0 <= i < |rest| && rest[i].key == rows[0].key ensures rows[0].id < rest[i].id {
        assert rest[i] in rest;
        var k :| 0 <= k < |rows| - 1 && rows[1..][k] == rest[i];
        assert rows[k + 1] == rest[i];
      }
    }
  }

  /** `apply_record_table`: filtered, present values sorted, empty values last in both directions. */
  function RecordTable(order: Order, rows: seq<Row>, wanted: Row -> bool): (table: seq<Row>) {
    var filtered := Keep(rows, wanted);
    StableSort(order, Keep(filtered, (r: Row) => r.key.Some?)) + Keep(filtered, (r: Row) => r.key.None?)
  }

  lemma TiesOfParts(order: Order, present: seq<Row>, empty: seq<Row>)
    requires DatabaseOrder(present, order) && TiesInRosterOrder(empty)
    requires (forall r :: r in present ==> r.key.Some?) && (forall r :: r in empty ==> r.key.None?)
    ensures TiesInRosterOrder(present + empty)
  {
    var all := present + empty;
    assert forall k :: 0 <= k < |present| ==> present[k] in present;
    assert forall k :: 0 <= k < |empty| ==> empty[k] in empty;
    forall i, j | 0 <= i < j < |all| && all[i].key == all[j].key ensures all[i].id < all[j].id {
      if j < |present| {
        assert present[i].id < present[j].id;
      } else if |present| <= i {
        assert empty[i - |present|].id < empty[j - |present|].id;
      }
    }
  }

  lemma SortKeepsRows(order: Order, rows: seq<Row>)
    ensures forall r :: r in StableSort(order, rows) <==> r in rows
  {
    forall r ensures r in StableSort(order, rows) <==> r in rows {
      assert r in multiset(StableSort(order, rows)) <==> r in multiset(rows);
    }
  }

  lemma RecordTableKeepsTies(order: Order, rows: seq<Row>, wanted: Row -> bool)
    requires TiesInRosterOrder(rows)
    ensures TiesInRosterOrder(RecordTable(order, rows, wanted))
    ensures forall r :: r in RecordTable(order, rows, wanted) <==> r in rows && wanted(r)
  {
    var filtered := Keep(rows, wanted);
    var present := Keep(filtered, (r: Row) => r.key.Some?);
    var empty := Keep(filtered, (r: Row) => r.key.None?);
    KeepPreservesTies(rows, wanted);
    KeepPreservesTies(filtered, (r: Row) => r.key.Some?);
    KeepPreservesTies(filtered, (r: Row) => r.key.None?);
    SortIsStable(order, present);
    SortKeepsRows(order, present);
    TiesOfParts(order, StableSort(order, present), empty);
  }

  function RowsOfAnalyses(analyses: seq<Analysis>): (rows: seq<Row>)
    ensures |rows| == |analyses| && forall k :: 0 <= k < |rows| ==> rows[k] == analyses[k].row
  {
    seq(|analyses|, k requires 0 <= k < |analyses| => analyses[k].row)
  }

  /** `from_roster` followed by `apply_query`: each side is filtered on its own. */
  function Queried(analyses: seq<Analysis>, roster: seq<Person>, order: Order,
                   keepReal: Analysis -> bool, keepMissing: Row -> bool): (rows: PeopleResultRows)
  {
    var ofRoster := Keep(analyses, (a: Analysis) => exists p :: p in roster && p.id == a.person);
    var queryset := StableSort(order, RowsOfAnalyses(Keep(ofRoster, keepReal)));
    PeopleResultRows(queryset, RecordTable(order, MissingRows(ofRoster, roster), keepMissing), order,
        CountRank(queryset, order))
  }

  ghost predicate PrimaryKeyOrder(analyses: seq<Analysis>) {
    forall i, j :: 0 <= i < j < |analyses| ==> analyses[i].row.id < analyses[j].row.id
  }

  lemma {:induction false} KeepPreservesKeys(analyses: seq<Analysis>, wanted: Analysis -> bool)
    requires PrimaryKeyOrder(analyses)
    ensures PrimaryKeyOrder(Keep(analyses, wanted))
  {
    if analyses != [] {
      KeepPreservesKeys(analyses[1..], wanted);
      var rest := Keep(analyses[1..], wanted);
      forall i | 0 <= i < |rest| ensures analyses[0].row.id < rest[i].row.id {
        assert rest[i] in rest;
        var k :| 0 <= k < |analyses| - 1 && analyses[1..][k] == rest[i];
        assert analyses[k + 1] == rest[i];
      }
    }
  }

  /** The real rows of a queried table are those of wanted analyses whose person is on the roster. */
  lemma RealRowsAreQueried(analyses: seq<Analysis>, roster: seq<Person>, order: Order,
                           keepReal: Analysis -> bool, keepMissing: Row -> bool)
    ensures forall r :: r in Queried(analyses, roster, order, keepReal, keepMissing).queryset <==>
              exists a, p :: a in analyses && p in roster && a.person == p.id && keepReal(a) && a.row == r
  {
    var kept := Keep(Keep(analyses, (a: Analysis) => exists p :: p in roster && p.id == a.person), keepReal);
    var rows := RowsOfAnalyses(kept);
    SortKeepsRows(order, rows);
    forall r ensures r in rows <==> exists a :: a in kept && a.row == r {
      if r in rows {
        var k :| 0 <= k < |rows| && rows[k] == r;
        assert kept[k] in kept;
      }
      if a :| a in kept && a.row == r {
        var k :| 0 <= k < |kept| && kept[k] == a;
        assert rows[k] == r;
      }
    }
    forall a ensures a in kept <==> a in analyses && keepReal(a) && exists p :: p in roster && a.person == p.id {
    }
  }

  /**
   Where the database compares as the model does, a filtered table is in order, and filtering never
   fabricates a placeholder: every one belongs to a seat whose person has no analysis in the task.
   */
  lemma FilteringNeverAddsAPlaceholder(analyses: seq<Analysis>, roster: seq<Person>, order: Order,
                                       keepReal: Analysis -> bool, keepMissing: Row -> bool)
    requires PrimaryKeyOrder(analyses)
    ensures var rows := Queried(analyses, roster, order, keepReal, keepMissing);
            && rows.CountsRows() && InOrder(order, rows.View())
            && (forall p :: p in rows.placeholders <==>
                  p.id < |roster| && p.key == roster[p.id].key && keepMissing(p)
                  && roster[p.id].id !in Matched(analyses))
            && (forall r :: r in rows.queryset <==>
                  exists a, p :: a in analyses && p in roster && a.person == p.id && keepReal(a) && a.row == r)
  {
    var rows := Queried(analyses, roster, order, keepReal, keepMissing);
    var member := (a: Analysis) => exists p :: p in roster && p.id == a.person;
    var ofRoster := Keep(analyses, member);
    var missing := MissingRows(ofRoster, roster);
    RosterIsCovered(ofRoster, roster);
    RecordTableKeepsTies(order, missing, keepMissing);
    KeepPreservesKeys(analyses, member);
    KeepPreservesKeys(ofRoster, keepReal);
    SortIsStable(order, RowsOfAnalyses(Keep(ofRoster, keepReal)));
    MergedListIsSorted(rows.queryset, order, rows.placeholders);
    RealRowsAreQueried(analyses, roster, order, keepReal, keepMissing);
    forall k | 0 <= k < |roster|
      ensures roster[k].id in Matched(ofRoster) <==> roster[k].id in Matched(analyses)
    {
      if roster[k].id in Matched(analyses) {
        var a :| a in analyses && a.person == roster[k].id;
        assert a in ofRoster;
      }
    }
  }
}
