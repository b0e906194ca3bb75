/** Sets of message numbers as lists of intervals. */
module ImapSets {
  import opened Bits
  import opened Decimals
  import opened Texts

  /** An end of 0 leaves the interval open. */
  datatype Interval = Interval(begin: int, end: int) {

    predicate HasDefinedEnd() {
      end != 0
    }

    function End(): int {
      if HasDefinedEnd() then end else INT64_MAX
    }

    function Size(): int {
      if begin == 0 && end == 0 then 0
      else if begin != 0 && end == 0 then INT64_MAX - begin + 1
      else end - begin + 1
    }

    /** What the setters assert, with every defined end below the largest 64-bit integer */
    predicate Sane() {
      0 <= begin <= INT64_MAX && (HasDefinedEnd() ==> begin <= end < INT64_MAX)
    }

    predicate Has(x: int) {
      begin <= x <= End()
    }

    function ToImapSequence(): string {
      if Size() == 0 then ""
      else if Size() == 1 then Number(begin)
      else Number(begin) + ":" + (if HasDefinedEnd() then Number(end) else "*")
    }
  }

  predicate AllSane(list: seq<Interval>) {
    forall i :: 0 <= i < |list| ==> list[i].Sane()
  }

  /** The numbers a list of intervals stands for; an undefined begin counts as 0, which is no id. */
  ghost predicate Contains(list: seq<Interval>, x: int) {
    exists i :: 0 <= i < |list| && list[i].Has(x)
  }

  ghost predicate SameSet(a: seq<Interval>, b: seq<Interval>) {
    forall x :: Contains(a, x) <==> Contains(b, x)
  }

  /** The same ids, which are the numbers from 1 on */
  ghost predicate SameIds(a: seq<Interval>, b: seq<Interval>) {
    forall x :: x >= 1 ==> (Contains(a, x) <==> Contains(b, x))
  }

  /** The first begin is undefined; only that of the first interval of a canonical list can be. */
  predicate FromZero(list: seq<Interval>) {
    list != [] && list[0].begin == 0
  }

  predicate SortedByBegin(list: seq<Interval>) {
    forall i, j :: 0 <= i < j < |list| ==> list[i].begin <= list[j].begin
  }

  /** Interval `i` ends, and at least one id lies between it and the next one. */
  predicate GapAfter(list: seq<Interval>, i: nat)
    requires i + 1 < |list|
  {
    list[i].HasDefinedEnd() && list[i].end + 1 < list[i + 1].begin
  }

  /** Ascending, separated by missing ids, and open at the end only */
  predicate Canonical(list: seq<Interval>) {
    AllSane(list) && forall i :: 0 <= i < |list| - 1 ==> GapAfter(list, i)
  }

  // ---------------------------------------------------------------- Denotation

  lemma ContainsConcat(a: seq<Interval>, b: seq<Interval>, x: int)
    ensures Contains(a + b, x) <==> Contains(a, x) || Contains(b, x)
  {
    if Contains(a, x) {
      var i :| 0 <= i < |a| && a[i].Has(x);
      assert (a + b)[i].Has(x);
    }
    if Contains(b, x) {
      var i :| 0 <= i < |b| && b[i].Has(x);
      assert (a + b)[|a| + i].Has(x);
    }
    if Contains(a + b, x) {
      var i :| 0 <= i < |a + b| && (a + b)[i].Has(x);
      assert if i < |a| then a[i].Has(x) else b[i - |a|].Has(x);
    }
  }

  lemma ContainsPermutation(a: seq<Interval>, b: seq<Interval>, x: int)
    requires multiset(a) == multiset(b) && Contains(a, x)
    ensures Contains(b, x)
  {
    var i :| 0 <= i < |a| && a[i].Has(x);
    assert a[i] in multiset(b);
    var j :| 0 <= j < |b| && b[j] == a[i];
  }

  lemma PermutationSameSet(a: seq<Interval>, b: seq<Interval>)
    requires multiset(a) == multiset(b)
    ensures SameSet(a, b) && |a| == |b| && (AllSane(a) ==> AllSane(b))
  {
    forall x ensures Contains(a, x) <==> Contains(b, x) {
      if Contains(a, x) {
        ContainsPermutation(a, b, x);
      }
      if Contains(b, x) {
        ContainsPermutation(b, a, x);
      }
    }
    assert |a| == |multiset(a)| == |multiset(b)| == |b|;
    if AllSane(a) {
      forall j | 0 <= j < |b| ensures b[j].Sane() {
        assert b[j] in multiset(a);
      }
    }
  }

  /** Two neighbours merged into one */
  function Merged(a: Interval, b: Interval): Interval {
    Interval(a.begin, if b.HasDefinedEnd() && a.end > b.end then a.end else b.end)
  }

  lemma MergedDenotes(a: Interval, b: Interval, x: int)
    requires a.Sane() && b.Sane() && a.HasDefinedEnd() && a.begin <= b.begin <= a.end + 1
    ensures Merged(a, b).Sane()
    ensures Merged(a, b).Has(x) <==> a.Has(x) || b.Has(x)
  {
  }

  lemma MergeSameSet(list: seq<Interval>, it: nat)
    requires it + 1 < |list| && AllSane(list)
    requires var a, b := list[it], list[it + 1]; a.HasDefinedEnd() && a.begin <= b.begin <= a.end + 1
    ensures SameSet(list, list[..it] + [Merged(list[it], list[it + 1])] + list[it + 2..])
  {
    var a, b := list[it], list[it + 1];
    var m := Merged(a, b);
    forall x ensures Contains(list, x) <==> Contains(list[..it] + [m] + list[it + 2..], x) {
      MergedDenotes(a, b, x);
      assert list == list[..it] + [a, b] + list[it + 2..];
      ContainsConcat(list[..it] + [a, b], list[it + 2..], x);
      ContainsConcat(list[..it], [a, b], x);
      ContainsConcat(list[..it] + [m], list[it + 2..], x);
      ContainsConcat(list[..it], [m], x);
      assert Contains([a, b], x) <==> a.Has(x) || b.Has(x) by {
        assert [a, b][0] == a && [a, b][1] == b;
      }
      assert Contains([m], x) <==> m.Has(x) by {
        assert [m][0] == m;
      }
    }
  }

  /** The first `it` intervals have their final form. */
  predicate Settled(list: seq<Interval>, it: nat) {
    AllSane(list) && SortedByBegin(list) && forall i :: 0 <= i < it && i < |list| - 1 ==> GapAfter(list, i)
  }

  lemma MergeSettled(list: seq<Interval>, it: nat)
    requires it + 1 < |list| && Settled(list, it)
    requires list[it].HasDefinedEnd() && list[it + 1].begin <= list[it].end + 1
    ensures Settled(list[..it] + [Merged(list[it], list[it + 1])] + list[it + 2..], it)
  {
    var m := Merged(list[it], list[it + 1]);
    var r := list[..it] + [m] + list[it + 2..];
    MergedDenotes(list[it], list[it + 1], 0);
    assert forall i :: 0 <= i < it ==> r[i] == list[i];
    assert forall i :: it < i < |r| ==> r[i] == list[i + 1];
    assert r[it].begin == list[it].begin;
    forall i | 0 <= i < it ensures GapAfter(r, i) {
      assert GapAfter(list, i);
    }
  }

  lemma OpenSameSet(list: seq<Interval>, it: nat)
    requires it < |list| && Settled(list, it) && !list[it].HasDefinedEnd()
    ensures SameSet(list, list[..it + 1]) && Settled(list[..it + 1], it + 1)
  {
    var kept := list[..it + 1];
    forall i | 0 <= i < it ensures GapAfter(kept, i) {
      assert GapAfter(list, i);
    }
    forall x ensures Contains(list, x) <==> Contains(list[..it + 1], x) {
      assert list == list[..it + 1] + list[it + 1..];
      ContainsConcat(list[..it + 1], list[it + 1..], x);
      if Contains(list[it + 1..], x) {
        var i :| 0 <= i < |list[it + 1..]| && list[it + 1..][i].Has(x);
        assert list[it + 1..][i] == list[it + 1 + i];
        assert list[..it + 1][it].Has(x);
      }
    }
  }

  // ---------------------------------------------------------------- Runs of consecutive ids

  predicate Ascending(values: seq<int>) {
    forall i, j :: 0 <= i < j < |values| ==> values[i] <= values[j]
  }

  predicate AllIds(values: seq<int>) {
    forall i :: 0 <= i < |values| ==> 0 < values[i] < INT64_MAX
  }

  /** Values `from` to `to` count up by one. */
  predicate Consecutive(values: seq<int>, from: nat, to: nat)
    requires from <= to < |values|
  {
    forall k :: from <= k <= to ==> values[k] == values[from] + (k - from)
  }

  /** The last position of the longest run at the start */
  function RunEnd(values: seq<int>): (n: nat)
    requires values != []
    ensures n < |values|
  {
    if |values| == 1 || values[1] != values[0] + 1 then 0 else 1 + RunEnd(values[1..])
  }

  lemma {:induction false} RunEndMaximal(values: seq<int>)
    requires values != []
    ensures var n := RunEnd(values);
      Consecutive(values, 0, n) && (n + 1 < |values| ==> values[n + 1] != values[n] + 1)
  {
    if |values| > 1 && values[1] == values[0] + 1 {
      var rest := values[1..];
      RunEndMaximal(rest);
      assert forall k :: 1 <= k < |values| ==> values[k] == rest[k - 1];
    }
  }

  /** One interval for each run of consecutive values */
  function Runs(values: seq<int>): seq<Interval>
    decreases |values|
  {
    if values == [] then []
    else
      var n := RunEnd(values);
      [Interval(values[0], values[n])] + Runs(values[n + 1..])
  }

  lemma RunsStep(values: seq<int>, from: nat, to: nat)
    requires from <= to < |values| && Consecutive(values, from, to)
    requires to + 1 < |values| ==> values[to + 1] != values[to] + 1
    ensures Runs(values[from..]) == [Interval(values[from], values[to])] + Runs(values[to + 1..])
  {
    var rest := values[from..];
    assert forall k :: 0 <= k < |rest| ==> rest[k] == values[from + k];
    assert RunEnd(rest) == to - from by {
      RunEndMaximal(rest);
      assert rest[to - from] == values[to];
    }
    assert rest[to - from + 1..] == values[to + 1..];
  }

  /** The intervals added stand for exactly the values. */
  lemma {:induction false} RunsDenote(values: seq<int>, x: int)
    requires Ascending(values) && AllIds(values)
    ensures Contains(Runs(values), x) <==> x in values
    decreases |values|
  {
    if values != [] {
      var n := RunEnd(values);
      var rest := values[n + 1..];
      RunEndMaximal(values);
      IdsTail(values, n + 1);
      hide AllIds, Ascending, Consecutive, RunEnd;
      RunsDenote(rest, x);
      FirstRunDenotes(values, n, x);
      ContainsConcat([Interval(values[0], values[n])], Runs(rest), x);
      InSplit(values, n + 1, x);
    }
  }

  lemma IdsTail(values: seq<int>, n: nat)
    requires n <= |values| && AllIds(values) && Ascending(values)
    ensures AllIds(values[n..]) && Ascending(values[n..]) && (n > 0 ==> values[n - 1] > 0)
  {
  }

  lemma InSplit(values: seq<int>, n: nat, x: int)
    requires n <= |values|
    ensures x in values <==> x in values[..n] || x in values[n..]
  {
    assert values == values[..n] + values[n..];
  }

  lemma FirstRunDenotes(values: seq<int>, n: nat, x: int)
    requires n < |values| && Consecutive(values, 0, n) && values[n] > 0
    ensures Contains([Interval(values[0], values[n])], x) <==> x in values[..n + 1]
  {
    var first := Interval(values[0], values[n]);
    assert [first][0] == first;
    if first.Has(x) {
      assert values[..n + 1][x - values[0]] == values[x - values[0]] == x;
    }
  }

  lemma {:induction false} RunsSane(values: seq<int>)
    requires Ascending(values) && AllIds(values)
    ensures AllSane(Runs(values))
    decreases |values|
  {
    if values != [] {
      RunEndMaximal(values);
      RunsSane(values[RunEnd(values) + 1..]);
    }
  }

  /** The runs of distinct values are maximal: between two of them an id is missing. */
  lemma {:induction false} RunsCanonical(values: seq<int>)
    requires forall i, j :: 0 <= i < j < |values| ==> values[i] < values[j]
    requires AllIds(values)
    ensures Canonical(Runs(values))
    ensures values != [] ==> Runs(values) != [] && Runs(values)[0].begin == values[0]
    decreases |values|
  {
    if values != [] {
      var n := RunEnd(values);
      var list, rest := Runs(values), values[n + 1..];
      RunEndMaximal(values);
      RunsCanonical(rest);
      assert list[1..] == Runs(rest);
      forall i | 0 <= i < |list| - 1 ensures GapAfter(list, i) {
        if i == 0 {
          assert rest != [];
        } else {
          assert GapAfter(Runs(rest), i - 1);
        }
      }
    }
  }

  /** After positive values are added, the set may be optimised. */
  lemma AddedSane(intervals: seq<Interval>, values: seq<int>)
    ensures AllSane(intervals) && Ascending(values) && AllIds(values) ==> AllSane(intervals + Runs(values))
  {
    if Ascending(values) && AllIds(values) {
      RunsSane(values);
    }
  }

  ghost predicate Added(intervals: seq<Interval>, rest: seq<int>, all: seq<Interval>) {
    intervals + Runs(rest) == all
  }

  lemma AddedRun(intervals: seq<Interval>, values: seq<int>, from: nat, to: nat, all: seq<Interval>)
    requires from <= to < |values| && Consecutive(values, from, to)
    requires to + 1 < |values| ==> values[to + 1] != values[to] + 1
    requires Added(intervals, values[from..], all)
    ensures Added(intervals + [Interval(values[from], values[to])], values[to + 1..], all)
  {
    RunsStep(values, from, to);
    Associative(intervals, [Interval(values[from], values[to])], Runs(values[to + 1..]));
  }

  lemma NothingToAdd(intervals: seq<Interval>, rest: seq<int>, all: seq<Interval>)
    requires Added(intervals, rest, all) && rest == []
    ensures intervals == all
  {
    assert intervals + [] == intervals;
  }

  /** The inner loop: step over the values that count up from position `from`. */
  method LastOfRun(vals: seq<int>, from: nat) returns (i: nat)
    requires from < |vals| - 1
    ensures from <= i < |vals| && Consecutive(vals, from, i)
    ensures i + 1 < |vals| ==> vals[i + 1] != vals[i] + 1
  {
    i := from;
    while true
      invariant from <= i < |vals| - 1 && Consecutive(vals, from, i)
      decreases |vals| - i
    {
      i := i + 1;
      if vals[i] != vals[i - 1] + 1 {
        i := i - 1;
        break;
      }
      if i >= |vals| - 1 {
        break;
      }
    }
  }

  // ---------------------------------------------------------------- ImapSet

  class ImapSet {
    var intervals: seq<Interval>

    constructor ()
      ensures intervals == []
    {
      intervals := [];
    }

    method AddInterval(interval: Interval)
      modifies this
      ensures intervals == old(intervals) + [interval]
    {
      intervals := intervals + [interval];
    }

    /** `sorted` is what the library sort leaves of the values to add. The loop makes sense of any
        order; what it adds for ascending values is said by RunsDenote and RunsCanonical. For positive
        ones `Optimize` may follow. */
    method Add(sorted: seq<int>)
      modifies this
      ensures intervals == old(intervals) + Runs(sorted)
      ensures AllSane(old(intervals)) && Ascending(sorted) && AllIds(sorted) ==> AllSane(intervals)
    {
      ghost var all := intervals + Runs(sorted);
      var i := 0;
      assert sorted[0..] == sorted && Added(intervals, sorted, all);
      hide Runs, Added, Consecutive, AllSane, Ascending, AllIds;
      while i < |sorted|
        invariant 0 <= i <= |sorted| && Added(intervals, sorted[i..], all)
      {
        ghost var before, start := intervals, i;
        var begin := sorted[i];
        if i != |sorted| - 1 {
          i := LastOfRun(sorted, i);
        }
        intervals := intervals + [Interval(begin, sorted[i])];
        AddedRun(before, sorted, start, i, all);
        i := i + 1;
      }
      NothingToAdd(intervals, sorted[i..], all);
      AddedSane(old(intervals), sorted);
    }

    /** `sorted` is what the library sort leaves, with ties in any order. */
    method Optimize(sorted: seq<Interval>)
      requires AllSane(intervals)
      requires multiset(sorted) == multiset(intervals) && SortedByBegin(sorted)
      modifies this
      ensures Canonical(intervals)
      ensures SameSet(intervals, old(intervals))
      ensures |intervals| <= |old(intervals)|
    {
      if |intervals| < 2 {
        return;
      }
      PermutationSameSet(intervals, sorted);
      intervals := sorted;
      var it := 0;
      while it < |intervals| && it != |intervals| - 1
        invariant 0 <= it <= |intervals| <= |sorted|
        invariant Settled(intervals, it) && SameSet(intervals, sorted)
        decreases |intervals| - it
      {
        var next := it + 1;
        if intervals[it].HasDefinedEnd() && intervals[it].end + 1 >= intervals[next].begin {
          var n := SetBegin(intervals[next], intervals[it].begin);
          if n.HasDefinedEnd() && intervals[it].end > n.end {
            n := SetEnd(n, intervals[it].end);
          }
          MergeSameSet(intervals, it);
          MergeSettled(intervals, it);
          intervals := intervals[..it] + [n] + intervals[next + 1..];
        } else if !intervals[it].HasDefinedEnd() {
          OpenSameSet(intervals, it);
          intervals := intervals[..next];
          it := |intervals|;
        } else {
          assert GapAfter(intervals, it);
          it := it + 1;
        }
      }
    }
  }

  /** The setters; their assertions are preconditions here. */
  method SetBegin(interval: Interval, value: int) returns (r: Interval)
    requires value >= 0 && (value <= interval.end || !interval.HasDefinedEnd())
    ensures r == Interval(value, interval.end)
  {
    r := interval.(begin := value);
  }

  method SetEnd(interval: Interval, value: int) returns (r: Interval)
    requires value >= 0 && (value >= interval.begin || interval.begin == 0)
    ensures r == Interval(interval.begin, value)
  {
    r := interval.(end := value);
  }

  // ---------------------------------------------------------------- Canonical form

  lemma CanonicalTail(list: seq<Interval>)
    requires Canonical(list) && list != []
    ensures Canonical(list[1..])
  {
    var tail := list[1..];
    forall i | 0 <= i < |tail| - 1 ensures GapAfter(tail, i) {
      assert GapAfter(list, i + 1);
    }
  }

  /** Everything but the first interval lies beyond the id after its end. */
  lemma {:induction false} CanonicalBounds(list: seq<Interval>, x: int)
    requires Canonical(list) && list != []
    ensures Contains(list, x) ==> list[0].begin <= x
    ensures Contains(list[1..], x) ==> list[0].HasDefinedEnd() && list[0].end + 1 < x
    ensures Contains(list, x) <==> list[0].Has(x) || Contains(list[1..], x)
    decreases |list|
  {
    assert list == [list[0]] + list[1..];
    ContainsConcat([list[0]], list[1..], x);
    assert Contains([list[0]], x) <==> list[0].Has(x) by {
      assert [list[0]][0] == list[0];
    }
    if |list| > 1 {
      assert GapAfter(list, 0);
      CanonicalTail(list);
      CanonicalBounds(list[1..], x);
    }
  }

  /** A set of numbers, 0 included, has one canonical form. */
  lemma {:induction false} CanonicalForm(a: seq<Interval>, b: seq<Interval>)
    requires Canonical(a) && Canonical(b) && SameSet(a, b)
    ensures a == b
    decreases |a|
  {
    if a == [] || b == [] {
      if a != [] {
        FirstIn(a);
      } else if b != [] {
        FirstIn(b);
      }
    } else {
      SameFirst(a, b);
      CanonicalTail(a);
      CanonicalTail(b);
      forall x ensures Contains(a[1..], x) <==> Contains(b[1..], x) {
        CanonicalBounds(a, x);
        CanonicalBounds(b, x);
        assert Contains(a, x) <==> Contains(b, x);
      }
      CanonicalForm(a[1..], b[1..]);
      assert a == [a[0]] + a[1..] && b == [b[0]] + b[1..];
    }
  }

  lemma ZeroOrLess(list: seq<Interval>, x: int)
    requires Canonical(list) && x < 1
    ensures Contains(list, x) <==> x == 0 && FromZero(list)
  {
    if list != [] {
      CanonicalBounds(list, x);
    }
  }

  lemma SameNumbers(a: seq<Interval>, b: seq<Interval>)
    requires Canonical(a) && Canonical(b) && SameIds(a, b) && (FromZero(a) <==> FromZero(b))
    ensures SameSet(a, b)
  {
    forall x ensures Contains(a, x) <==> Contains(b, x) {
      if x < 1 {
        ZeroOrLess(a, x);
        ZeroOrLess(b, x);
      }
    }
  }

  /** Of the canonical lists for the same ids there is one with the first begin defined, and at most one
      with an undefined first begin. */
  lemma CanonicalUnique(a: seq<Interval>, b: seq<Interval>)
    requires Canonical(a) && Canonical(b) && SameIds(a, b)
    ensures a == b <==> (FromZero(a) <==> FromZero(b))
  {
    if FromZero(a) <==> FromZero(b) {
      SameNumbers(a, b);
      CanonicalForm(a, b);
    }
  }

  /** The list with its first begin defined */
  function FromOne(list: seq<Interval>): seq<Interval> {
    if FromZero(list) then [Interval(1, list[0].end)] + list[1..] else list
  }

  /** Defining the first begin changes neither the form nor the ids. */
  lemma FromOneSameIds(list: seq<Interval>)
    requires Canonical(list)
    ensures Canonical(FromOne(list)) && !FromZero(FromOne(list)) && SameIds(list, FromOne(list))
  {
    if FromZero(list) {
      var one, tail := [Interval(1, list[0].end)], list[1..];
      assert list == [list[0]] + tail && FromOne(list)[0] == one[0];
      forall i | 0 <= i < |list| - 1
        ensures GapAfter(FromOne(list), i)
      {
        assert GapAfter(list, i);
      }
      forall x | x >= 1
        ensures Contains(list, x) <==> Contains(FromOne(list), x)
      {
        ContainsConcat([list[0]], tail, x);
        ContainsConcat(one, tail, x);
        OneContains(list[0], x);
        OneContains(one[0], x);
      }
    }
  }

  lemma OneContains(interval: Interval, x: int)
    ensures Contains([interval], x) <==> interval.Has(x)
  {
    assert [interval][0] == interval;
  }

  lemma FirstIn(list: seq<Interval>)
    requires list != [] && AllSane(list)
    ensures Contains(list, list[0].begin) && Contains(list, list[0].End())
  {
    assert list[0].Has(list[0].begin) && list[0].Has(list[0].End());
  }

  lemma SameFirst(a: seq<Interval>, b: seq<Interval>)
    requires Canonical(a) && Canonical(b) && SameSet(a, b) && a != [] && b != []
    ensures a[0] == b[0]
  {
    FirstBelow(a, b);
    FirstBelow(b, a);
  }

  lemma FirstBelow(a: seq<Interval>, b: seq<Interval>)
    requires Canonical(a) && Canonical(b) && SameSet(a, b) && a != [] && b != []
    ensures a[0].begin >= b[0].begin
    ensures a[0].begin == b[0].begin ==> a[0].End() >= b[0].End()
  {
    FirstIn(a);
    CanonicalBounds(b, a[0].begin);
    if a[0].begin == b[0].begin && a[0].End() < b[0].End() {
      var x := a[0].End() + 1;
      assert b[0].Has(x);
      assert Contains(b, x) && Contains(a, x);
      CanonicalBounds(a, x);
    }
  }

  /** Optimising an optimised set once more changes nothing. */
  method OptimizeIdempotent(ids: ImapSet, sorted: seq<Interval>)
    requires Canonical(ids.intervals)
    requires multiset(sorted) == multiset(ids.intervals) && SortedByBegin(sorted)
    modifies ids
    ensures ids.intervals == old(ids.intervals)
  {
    ids.Optimize(sorted);
    CanonicalForm(ids.intervals, old(ids.intervals));
  }

  // ---------------------------------------------------------------- Comparison

  /** The comparison operator: as many intervals, each of which the other list holds too */
  predicate SetsEqual(a: seq<Interval>, b: seq<Interval>) {
    |a| == |b| && forall i :: 0 <= i < |a| ==> a[i] in b
  }

  /** On lists with repetitions it is not symmetric. */
  lemma SetsEqualNotSymmetric()
    ensures SetsEqual([Interval(1, 1), Interval(1, 1)], [Interval(1, 1), Interval(5, 5)])
    ensures !SetsEqual([Interval(1, 1), Interval(5, 5)], [Interval(1, 1), Interval(1, 1)])
  {
    var a, b := [Interval(1, 1), Interval(1, 1)], [Interval(1, 1), Interval(5, 5)];
    assert b[0] in b;
    assert b[1] !in a;
  }

  lemma {:induction false} CanonicalAscending(list: seq<Interval>, i: nat, j: nat)
    requires Canonical(list) && i < j < |list|
    ensures list[i].begin < list[j].begin
    decreases j
  {
    assert GapAfter(list, j - 1);
    if i < j - 1 {
      CanonicalAscending(list, i, j - 1);
    }
  }

  lemma {:induction false} DistinctCount(list: seq<Interval>)
    requires forall i, j :: 0 <= i < j < |list| ==> list[i] != list[j]
    ensures |set i | i in list| == |list|
  {
    if list != [] {
      DistinctCount(list[1..]);
      var rest := set i | i in list[1..];
      assert list[0] !in rest;
      assert (set i | i in list) == rest + {list[0]};
    }
  }

  lemma SubsetOfSameSize(a: set<Interval>, b: set<Interval>)
    requires a <= b && |a| == |b|
    ensures a == b
  {
    assert |b - a| == |b| - |a|;
  }

  lemma CanonicalCount(list: seq<Interval>)
    requires Canonical(list)
    ensures |set i | i in list| == |list|
  {
    forall i, j | 0 <= i < j < |list| ensures list[i] != list[j] {
      CanonicalAscending(list, i, j);
    }
    DistinctCount(list);
  }

  /** On optimised lists the comparison holds if and only if both stand for the same ids and begin with
      the same kind of begin, so there it is symmetric and transitive. */
  lemma SetsEqualExactly(a: seq<Interval>, b: seq<Interval>)
    requires Canonical(a) && Canonical(b)
    ensures SetsEqual(a, b) <==> SameIds(a, b) && (FromZero(a) <==> FromZero(b))
  {
    if SameIds(a, b) && (FromZero(a) <==> FromZero(b)) {
      CanonicalUnique(a, b);
    }
    if SetsEqual(a, b) {
      CanonicalCount(a);
      CanonicalCount(b);
      var inA, inB := set i | i in a, set i | i in b;
      SubsetOfSameSize(inA, inB);
      assert forall e :: e in b ==> e in inB;
      forall x ensures Contains(a, x) <==> Contains(b, x) {
        SameMembers(a, b, x);
        SameMembers(b, a, x);
      }
      CanonicalForm(a, b);
    }
  }

  /** With an undefined begin it tells apart what begins with 1: also the default interval, which stands
      for every id, from the one that says so. */
  lemma UndefinedBegin(end: int)
    requires 0 <= end < INT64_MAX
    ensures var a, b := [Interval(0, end)], [Interval(1, end)];
            Canonical(a) && Canonical(b) && SameIds(a, b) && !SetsEqual(a, b)
  {
    var a, b := [Interval(0, end)], [Interval(1, end)];
    forall x | x >= 1
      ensures Contains(a, x) <==> Contains(b, x)
    {
      OneContains(a[0], x);
      OneContains(b[0], x);
    }
    assert a[0] !in b;
  }

  lemma SameMembers(a: seq<Interval>, b: seq<Interval>, x: int)
    requires forall e :: e in a ==> e in b
    ensures Contains(a, x) ==> Contains(b, x)
  {
    if Contains(a, x) {
      var i :| 0 <= i < |a| && a[i].Has(x);
      assert a[i] in b;
      var j :| 0 <= j < |b| && b[j] == a[i];
    }
  }

  // ---------------------------------------------------------------- Text form

  function FromImapSequence(sequence: string): Interval {
    var values := Split(sequence, ':');
    var begin := ToLongLong(values[0]);
    if |values| > 2 || begin.None? then Interval(0, 0)
    else if |values| == 1 then Interval(begin.value, begin.value)
    else if values[1] == "*" then Interval(begin.value, 0)
    else if ToLongLong(values[1]).None? then Interval(0, 0)
    else Interval(begin.value, ToLongLong(values[1]).value)
  }

  /** What a printed interval reads back as: one of size 1 prints as a single id. */
  function ReadBack(interval: Interval): Interval {
    if interval.Size() == 1 then Interval(interval.begin, interval.begin) else interval
  }

  /** An interval of two 64-bit numbers whose size does not overflow */
  predicate Storable(interval: Interval) {
    && INT64_MIN <= interval.begin <= INT64_MAX && INT64_MIN <= interval.end <= INT64_MAX
    && INT64_MIN <= interval.Size() <= INT64_MAX
  }

  predicate AllStorable(list: seq<Interval>) {
    forall i :: 0 <= i < |list| ==> Storable(list[i])
  }

  lemma FromPieces(begin: string, end: string)
    requires Without(begin, ':') && Without(end, ':')
    ensures Split(begin, ':') == [begin] && Split(begin + ":" + end, ':') == [begin, end]
  {
    SplitPiece(begin, ':', end);
    SplitPiece(end, ':', "");
  }

  /** What is no range at all is taken for the default interval: more than two ends, or one that is no
      number. */
  lemma Malformed(a: string, b: string, c: string)
    requires Without(a, ':') && Without(b, ':')
    ensures FromImapSequence(a + [':'] + (b + [':'] + c)) == Interval(0, 0)
    ensures ToLongLong(a) == None ==> FromImapSequence(a) == FromImapSequence(a + [':'] + b) == Interval(0, 0)
    ensures ToLongLong(a).Some? && ToLongLong(b) == None && b != "*" ==>
      FromImapSequence(a + [':'] + b) == Interval(0, 0)
  {
    SplitPiece(a, ':', b + [':'] + c);
    SplitPiece(b, ':', c);
    SplitPiece(a, ':', b);
    assert |Split(a + [':'] + (b + [':'] + c), ':')| == 2 + |Split(c, ':')|;
    hide Split, ToLongLong;
  }

  lemma NumberText(n: int)
    ensures var s := Number(n); s != "" && s != "*" && Without(s, ':') && Without(s, ',')
  {
    var s := Number(n);
    assert IsDigit(s[0]) || s[0] == '-';
  }

  lemma RangeText(begin: string, end: string)
    requires begin != "" && Without(begin, ',') && Without(end, ',')
    ensures var s := begin + ":" + end; s != "" && Without(s, ',')
  {
  }

  lemma SequenceRoundTrip(interval: Interval)
    requires Storable(interval) && interval.Size() != 0
    ensures var s := interval.ToImapSequence();
      FromImapSequence(s) == ReadBack(interval) && s != "" && Without(s, ',')
  {
    var begin := Number(interval.begin);
    var end := if interval.HasDefinedEnd() then Number(interval.end) else "*";
    NumberRoundTrip(interval.begin);
    NumberRoundTrip(interval.end);
    NumberText(interval.begin);
    NumberText(interval.end);
    FromPieces(begin, end);
    RangeText(begin, end);
    hide Number, ToLongLong, Split, Without;
  }

  function SequenceTexts(list: seq<Interval>): (texts: seq<string>)
    ensures |texts| == |list|
  {
    if list == [] then [] else [list[0].ToImapSequence()] + SequenceTexts(list[1..])
  }

  /** The comma-separated text of a list of intervals */
  function SetText(list: seq<Interval>): string {
    Join(SequenceTexts(list), ',')
  }

  /** The intervals of the pieces that are not empty */
  function ParsePieces(pieces: seq<string>): seq<Interval> {
    if pieces == [] then []
    else (if pieces[0] == "" then [] else [FromImapSequence(pieces[0])]) + ParsePieces(pieces[1..])
  }

  function ParseSet(sequence: string): seq<Interval> {
    ParsePieces(Split(sequence, ','))
  }

  lemma {:induction false} JoinSnoc(pieces: seq<string>, piece: string, sep: char)
    requires pieces != []
    ensures Join(pieces + [piece], sep) == Join(pieces, sep) + [sep] + piece
  {
    var all := pieces + [piece];
    if |pieces| == 1 {
      assert all[1..] == [piece];
    } else {
      JoinSnoc(pieces[1..], piece, sep);
      assert all[1..] == pieces[1..] + [piece];
    }
  }

  lemma {:induction false} SequenceTextsAt(list: seq<Interval>, i: nat)
    requires i < |list|
    ensures SequenceTexts(list)[i] == list[i].ToImapSequence()
    ensures SequenceTexts(list)[..i] + [list[i].ToImapSequence()] == SequenceTexts(list)[..i + 1]
  {
    if i > 0 {
      SequenceTextsAt(list[1..], i - 1);
    }
  }

  method ToImapSequenceSet(intervals: seq<Interval>) returns (result: string)
    ensures result == SetText(intervals)
  {
    var rv: seq<string> := [];
    var i := 0;
    while i < |intervals|
      invariant 0 <= i <= |intervals| && rv == SequenceTexts(intervals)[..i]
    {
      SequenceTextsAt(intervals, i);
      rv := rv + [intervals[i].ToImapSequence()];
      i := i + 1;
    }
    assert rv == SequenceTexts(intervals);
    result := "";
    if rv != [] {
      result := rv[0];
      var it := 1;
      while it != |rv|
        invariant 1 <= it <= |rv| && result == Join(rv[..it], ',')
        decreases |rv| - it
      {
        JoinSnoc(rv[..it], rv[it], ',');
        assert rv[..it] + [rv[it]] == rv[..it + 1];
        result := result + [','] + rv[it];
        it := it + 1;
      }
      assert rv[..it] == rv;
    }
  }

  lemma {:induction false} ParsePiecesSnoc(pieces: seq<string>, piece: string)
    ensures ParsePieces(pieces + [piece])
         == ParsePieces(pieces) + (if piece == "" then [] else [FromImapSequence(piece)])
  {
    var all := pieces + [piece];
    if pieces == [] {
      assert all[0] == piece && all[1..] == [];
      assert ParsePieces([]) == [];
    } else {
      var last := if piece == "" then [] else [FromImapSequence(piece)];
      ParsePiecesSnoc(pieces[1..], piece);
      assert all[0] == pieces[0] && all[1..] == pieces[1..] + [piece];
      if pieces[0] != "" {
        Associative([FromImapSequence(pieces[0])], ParsePieces(pieces[1..]), last);
      }
    }
  }

  method FromImapSequenceSet(sequence: string) returns (result: ImapSet)
    ensures fresh(result) && result.intervals == ParseSet(sequence)
  {
    result := new ImapSet();
    var pieces := Split(sequence, ',');
    var i := 0;
    while i < |pieces|
      invariant 0 <= i <= |pieces| && fresh(result) && result.intervals == ParsePieces(pieces[..i])
    {
      ParsePiecesSnoc(pieces[..i], pieces[i]);
      assert pieces[..i] + [pieces[i]] == pieces[..i + 1];
      if pieces[i] != "" {
        result.AddInterval(FromImapSequence(pieces[i]));
      }
      i := i + 1;
    }
    assert pieces[..i] == pieces;
  }

  /** What a printed list reads back as: intervals of size 0 print as nothing. */
  function ReadBackAll(list: seq<Interval>): seq<Interval> {
    if list == [] then []
    else (if list[0].Size() == 0 then [] else [ReadBack(list[0])]) + ReadBackAll(list[1..])
  }

  lemma {:induction false} ParseTexts(list: seq<Interval>)
    requires AllStorable(list)
    ensures ParsePieces(SequenceTexts(list)) == ReadBackAll(list)
    ensures forall i :: 0 <= i < |list| ==> Without(SequenceTexts(list)[i], ',')
  {
    if list != [] {
      ParseTexts(list[1..]);
      if list[0].Size() != 0 {
        SequenceRoundTrip(list[0]);
      }
      var texts := SequenceTexts(list);
      forall i | 0 <= i < |list| ensures Without(texts[i], ',') {
        assert i > 0 ==> texts[i] == SequenceTexts(list[1..])[i - 1];
      }
    }
  }

  lemma ParsePrinted(list: seq<Interval>)
    requires AllStorable(list)
    ensures ParseSet(SetText(list)) == ReadBackAll(list)
  {
    ParseTexts(list);
    if list == [] {
      assert ParsePieces([""]) == [] + ParsePieces([""][1..]);
    } else {
      SplitJoin(SequenceTexts(list), ',');
    }
  }

  /** The interval has a text of its own: its size is not 0, and it does not print as one id that it does
      not also end with. */
  predicate HasOwnText(interval: Interval) {
    interval.Size() != 0 && (interval.Size() == 1 ==> interval.end == interval.begin)
  }

  predicate AllHaveOwnText(list: seq<Interval>) {
    forall i :: 0 <= i < |list| ==> HasOwnText(list[i])
  }

  lemma {:induction false} ReadBackAllExactly(list: seq<Interval>)
    requires AllStorable(list)
    ensures |ReadBackAll(list)| <= |list|
    ensures ReadBackAll(list) == list <==> AllHaveOwnText(list)
  {
    if list != [] {
      ReadBackAllExactly(list[1..]);
      var r := ReadBackAll(list[1..]);
      assert AllHaveOwnText(list) <==> HasOwnText(list[0]) && AllHaveOwnText(list[1..]) by {
        assert list == [list[0]] + list[1..];
      }
      if list[0].Size() == 0 {
        assert [] + r == r;
      } else {
        assert ([ReadBack(list[0])] + r)[1..] == r;
        assert list == [list[0]] + list[1..];
      }
    }
  }

  /** Parsing the printed text of a list gives the list back if and only if no interval has size 0, as the
      default one and one that ends right before it begins have, or is open at the largest id. */
  lemma SetRoundTripExactly(list: seq<Interval>)
    requires AllStorable(list)
    ensures ParseSet(SetText(list)) == list <==> AllHaveOwnText(list)
  {
    ParsePrinted(list);
    ReadBackAllExactly(list);
  }
}
