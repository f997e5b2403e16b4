/**
 The latency statistics, in exact arithmetic: the bounded sample buffer, the
 percentiles read off a sorted copy, and the one-pass variance formula.
 */
module LatencyMetric {

  // ---------------------------------------------------------------- recording

  datatype Op = Record(latency: nat) | Reset

  /** Everything recorded since the last reset, kept or not. */
  function SinceReset(history: seq<Op>): seq<nat> {
    if history == [] then [] else
      match history[|history| - 1]
      case Reset => []
      case Record(x) => SinceReset(history[..|history| - 1]) + [x]
  }

  /** The first `capacity` of them. */
  function Kept(history: seq<Op>, capacity: nat): seq<nat> {
    var all := SinceReset(history);
    if |all| <= capacity then all else all[..capacity]
  }

  /** The r-th operation is the first after the last reset, and everything from it on is recorded. */
  lemma {:induction false} SinceResetExactly(history: seq<Op>) returns (r: nat)
    ensures r <= |history| && (r == 0 || history[r - 1].Reset?)
    ensures forall i :: r <= i < |history| ==> history[i].Record?
    ensures |SinceReset(history)| == |history| - r
    ensures forall i :: r <= i < |history| ==> SinceReset(history)[i - r] == history[i].latency
  {
    if history == [] {
      r := 0;
    } else if history[|history| - 1].Reset? {
      r := |history|;
    } else {
      var before := history[..|history| - 1];
      r := SinceResetExactly(before);
      assert SinceReset(history) == SinceReset(before) + [history[|history| - 1].latency];
      hide SinceReset;
      forall i | r <= i < |history| ensures history[i].Record? && SinceReset(history)[i - r] == history[i].latency {
        if i < |before| { assert before[i] == history[i]; }
      }
    }
  }

  /** Which latencies are kept, element by element: those from the r-th operation on,
      just after the last reset, as many as there is room for. */
  lemma KeptExactly(history: seq<Op>, capacity: nat) returns (r: nat)
    ensures r <= |history| && (r == 0 || history[r - 1].Reset?)
    ensures forall i :: r <= i < |history| ==> history[i].Record?
    ensures |Kept(history, capacity)| == if |history| - r < capacity then |history| - r else capacity
    ensures forall i :: r <= i < r + |Kept(history, capacity)| ==> Kept(history, capacity)[i - r] == history[i].latency
  {
    r := SinceResetExactly(history);
    hide SinceReset;
  }

  class Metric {
    const samples: array<nat>
    var count: nat
    ghost var history: seq<Op>

    ghost predicate Valid()
      reads this, samples
    {
      count <= samples.Length && samples[..count] == Kept(history, samples.Length)
    }

    constructor (capacity: nat)
      ensures Valid() && samples.Length == capacity && history == [] && fresh(samples)
    {
      samples := new nat[capacity](_ => 0);
      count := 0;
      history := [];
    }

    /** Stores the sample, unless the buffer is full. */
    method RecordSample(latency: nat)
      requires Valid()
      modifies this, samples
      ensures Valid() && history == old(history) + [Record(latency)]
    {
      assert (history + [Record(latency)])[..|history|] == history;
      assert SinceReset(history + [Record(latency)]) == SinceReset(history) + [latency];
      if count < samples.Length {
        assert samples[..count] == SinceReset(history);
        samples[count] := latency;
        count := count + 1;
      }
      history := history + [Record(latency)];
    }

    method ResetSamples()
      modifies this
      ensures Valid() && history == old(history) + [Reset]
    {
      count := 0;
      history := history + [Reset];
    }

    /** A sorted copy of what was kept; the buffer itself is untouched. */
    method GetSortedSamples() returns (sorted: seq<nat>)
      requires Valid()
      ensures Ascending(sorted) && multiset(sorted) == multiset(Kept(history, samples.Length))
    {
      sorted := Sort(samples[..count]);
      SortCorrect(samples[..count]);
    }
  }

  // ---------------------------------------------------------------- sorting

  predicate Ascending(s: seq<nat>) {
    forall i, j :: 0 <= i < j < |s| ==> s[i] <= s[j]
  }

  function Insert(x: nat, s: seq<nat>): seq<nat> {
    if s == [] || s[|s| - 1] <= x then s + [x] else Insert(x, s[..|s| - 1]) + [s[|s| - 1]]
  }

  lemma {:induction false} InsertPermutes(x: nat, s: seq<nat>)
    ensures multiset(Insert(x, s)) == multiset(s) + multiset{x}
  {
    if s != [] && s[|s| - 1] > x {
      InsertPermutes(x, s[..|s| - 1]);
      assert s == s[..|s| - 1] + [s[|s| - 1]];
    }
  }

  lemma {:induction false} InsertSorts(x: nat, s: seq<nat>)
    requires Ascending(s)
    ensures Ascending(Insert(x, s)) && Insert(x, s) != []
    ensures forall y :: y in Insert(x, s) ==> y == x || y in s
  {
    if s != [] && s[|s| - 1] > x {
      var before, last := s[..|s| - 1], s[|s| - 1];
      InsertSorts(x, before);
      assert Insert(x, s) == Insert(x, before) + [last];
      forall i | 0 <= i < |Insert(x, before)| ensures Insert(x, before)[i] <= last {
        assert Insert(x, before)[i] in Insert(x, before);
      }
      hide Insert;
    }
  }

  function Sort(s: seq<nat>): seq<nat> {
    if s == [] then [] else Insert(s[|s| - 1], Sort(s[..|s| - 1]))
  }

  lemma {:induction false} SortCorrect(s: seq<nat>)
    ensures Ascending(Sort(s)) && multiset(Sort(s)) == multiset(s)
  {
    if s != [] {
      hide Insert, Ascending;
      var n := |s| - 1;
      SortCorrect(s[..n]);
      InsertPermutes(s[n], Sort(s[..n]));
      InsertSorts(s[n], Sort(s[..n]));
      assert s == s[..n] + [s[n]];
    }
  }

  // ---------------------------------------------------------------- real arithmetic

  /** The real product, named so that proofs can treat it as a symbol. */
  function Mul(x: real, y: real): (r: real)
    ensures (x > 0.0 && y > 0.0) || (x < 0.0 && y < 0.0) ==> r > 0.0
    ensures (x == 0.0 || y == 0.0) ==> r == 0.0
  {
    x * y
  }

  lemma ScaleMonotone(p: real, q: real, n: real)
    requires p <= q && n > 0.0
    ensures Mul(p, n) <= Mul(q, n)
  {
    assert Mul(q - p, n) >= 0.0;
    assert Mul(q, n) == Mul(p, n) + Mul(q - p, n);
  }

  // ---------------------------------------------------------------- percentiles

  /** `percentile * count / 100`, truncated, and clamped to the last sample. */
  function PercentileIndex(percentile: real, n: nat): (i: nat)
    requires n > 0 && 0.0 <= percentile <= 100.0
    ensures i < n
  {
    var idx := (Mul(percentile, n as real) / 100.0).Floor;
    if idx >= n then n - 1 else idx
  }

  function PercentileNs(sorted: seq<nat>, percentile: real, cyclesPerNs: real): real
    requires sorted != [] && 0.0 <= percentile <= 100.0 && cyclesPerNs > 0.0
  {
    sorted[PercentileIndex(percentile, |sorted|)] as real / cyclesPerNs
  }

  function AtMost(v: nat): nat -> bool { x => x <= v }

  function AtLeast(v: nat): nat -> bool { x => x >= v }

  function Count(s: seq<nat>, p: nat -> bool): (c: nat)
    ensures c <= |s|
  {
    if s == [] then 0
    else Count(s[..|s| - 1], p) + (if p(s[|s| - 1]) then 1 else 0)
  }

  /** The positions whose sample has the property. */
  function Positions(s: seq<nat>, p: nat -> bool): set<nat> {
    set i: nat | i < |s| && p(s[i])
  }

  lemma PositionsSnoc(s: seq<nat>, x: nat, p: nat -> bool)
    ensures |s| !in Positions(s, p)
    ensures Positions(s + [x], p) == Positions(s, p) + if p(x) then {|s|} else {}
  {
  }

  /** Count is their number. */
  lemma {:induction false} CountIsCardinality(s: seq<nat>, p: nat -> bool)
    ensures Count(s, p) == |Positions(s, p)|
  {
    if s != [] {
      hide Positions;
      var n := |s| - 1;
      CountIsCardinality(s[..n], p);
      assert s == s[..n] + [s[n]];
      PositionsSnoc(s[..n], s[n], p);
    }
  }

  lemma {:induction false} CountAtLeast(s: seq<nat>, p: nat -> bool, a: nat, b: nat)
    requires a <= b <= |s| && forall i :: a <= i < b ==> p(s[i])
    ensures Count(s, p) >= b - a
    decreases |s|
  {
    if a < b {
      var n := |s| - 1;
      if b == |s| {
        CountAtLeast(s[..n], p, a, b - 1);
      } else {
        CountAtLeast(s[..n], p, a, b);
      }
    }
  }

  lemma {:induction false} CountConcat(s: seq<nat>, t: seq<nat>, p: nat -> bool)
    ensures Count(s + t, p) == Count(s, p) + Count(t, p)
    decreases |t|
  {
    if t == [] {
      assert s + t == s;
    } else {
      assert (s + t)[..|s + t| - 1] == s + t[..|t| - 1];
      CountConcat(s, t[..|t| - 1], p);
    }
  }

  lemma CountMoved(before: seq<nat>, x: nat, after: seq<nat>, p: nat -> bool)
    ensures Count(before + [x] + after, p) == Count(before + after, p) + (if p(x) then 1 else 0)
  {
    CountConcat(before + [x], after, p);
    CountConcat(before, after, p);
    assert (before + [x])[..|before|] == before;
  }

  /** Counting does not depend on order. */
  lemma {:induction false} CountPermutation(s: seq<nat>, t: seq<nat>, p: nat -> bool)
    requires multiset(s) == multiset(t)
    ensures Count(s, p) == Count(t, p)
    decreases |s|
  {
    if s == [] {
      assert |multiset(t)| == 0;
    } else {
      var x := s[|s| - 1];
      assert x in multiset(t);
      var k :| 0 <= k < |t| && t[k] == x;
      var before, after := t[..k], t[k + 1..];
      assert t == before + [x] + after;
      assert s == s[..|s| - 1] + [x];
      assert multiset(s[..|s| - 1]) == multiset(before + after) by {
        assert multiset(before + after) == multiset(t) - multiset{x};
        assert multiset(s[..|s| - 1]) == multiset(s) - multiset{x};
      }
      CountPermutation(s[..|s| - 1], before + after, p);
      CountMoved(before, x, after, p);
    }
  }

  lemma PermutationMember(s: seq<nat>, t: seq<nat>, x: nat)
    requires multiset(s) == multiset(t) && x in s
    ensures x in t
  {
    assert x in multiset(s);
  }

  /** Percentile arithmetic: the index splits n samples at least p : 100 - p. */
  lemma IndexSplits(percentile: real, n: nat)
    requires n > 0 && 0.0 <= percentile <= 100.0
    ensures (PercentileIndex(percentile, n) + 1) as real * 100.0 >= Mul(percentile, n as real)
    ensures percentile < 100.0 ==> (PercentileIndex(percentile, n) + 1) as real * 100.0 > Mul(percentile, n as real)
    ensures (n - PercentileIndex(percentile, n)) as real * 100.0 >= Mul(100.0 - percentile, n as real)
  {
    var y := Mul(percentile, n as real);
    ScaleMonotone(percentile, 100.0, n as real);
    assert Mul(100.0, n as real) == 100.0 * n as real;
    assert Mul(100.0 - percentile, n as real) == Mul(100.0, n as real) - y;
    hide Mul;
    var idx := (y / 100.0).Floor;
    assert idx as real <= y / 100.0 < idx as real + 1.0;
  }

  /** The i-th smallest has i + 1 samples no larger and n - i no smaller. */
  lemma RankCounts(kept: seq<nat>, sorted: seq<nat>, i: nat)
    requires Ascending(sorted) && multiset(sorted) == multiset(kept) && i < |sorted|
    ensures sorted[i] in kept && |sorted| == |kept|
    ensures Count(kept, AtMost(sorted[i])) >= i + 1
    ensures Count(kept, AtLeast(sorted[i])) >= |kept| - i
  {
    SameLength(sorted, kept);
    PermutationMember(sorted, kept, sorted[i]);
    CountAtLeast(sorted, AtMost(sorted[i]), 0, i + 1);
    CountAtLeast(sorted, AtLeast(sorted[i]), i, |sorted|);
    CountPermutation(sorted, kept, AtMost(sorted[i]));
    CountPermutation(sorted, kept, AtLeast(sorted[i]));
  }

  lemma SameLength(s: seq<nat>, t: seq<nat>)
    requires multiset(s) == multiset(t)
    ensures |s| == |t|
  {
    assert |multiset(s)| == |multiset(t)|;
  }

  /**
   Quantile correctness, for every record/reset history that kept something and
   every sorted copy of it: the time reported is that of a kept sample v, more than p%
   of them are no larger (all of them at p = 100) and at least (100 - p)% no smaller.
   */
  lemma QuantileCorrect(history: seq<Op>, capacity: nat, sorted: seq<nat>, percentile: real, cyclesPerNs: real)
      returns (v: nat)
    requires Kept(history, capacity) != [] && 0.0 <= percentile <= 100.0 && cyclesPerNs > 0.0
    requires Ascending(sorted) && multiset(sorted) == multiset(Kept(history, capacity))
    ensures sorted != [] && PercentileNs(sorted, percentile, cyclesPerNs) * cyclesPerNs == v as real
    ensures var kept := Kept(history, capacity);
      var noLarger, noSmaller := set i: nat | i < |kept| && kept[i] <= v, set i: nat | i < |kept| && kept[i] >= v;
      && v in kept
      && |noLarger| as real * 100.0 >= Mul(percentile, |kept| as real)
      && (percentile < 100.0 ==> |noLarger| as real * 100.0 > Mul(percentile, |kept| as real))
      && |noSmaller| as real * 100.0 >= Mul(100.0 - percentile, |kept| as real)
  {
    hide Mul, Count, Kept, Ascending;
    SameLength(sorted, Kept(history, capacity));
    var i := PercentileIndex(percentile, |sorted|);
    v := sorted[i];
    RankCounts(Kept(history, capacity), sorted, i);
    IndexSplits(percentile, |sorted|);
    InNs(sorted, percentile, cyclesPerNs);
    hide PercentileIndex, PercentileNs;
    AsSets(Kept(history, capacity), v);
  }

  lemma AsSets(kept: seq<nat>, v: nat)
    ensures Count(kept, AtMost(v)) == |set i: nat | i < |kept| && kept[i] <= v|
    ensures Count(kept, AtLeast(v)) == |set i: nat | i < |kept| && kept[i] >= v|
  {
    CountIsCardinality(kept, AtMost(v));
    CountIsCardinality(kept, AtLeast(v));
    assert Positions(kept, AtMost(v)) == set i: nat | i < |kept| && kept[i] <= v;
    assert Positions(kept, AtLeast(v)) == set i: nat | i < |kept| && kept[i] >= v;
  }

  /** The time reported, times the clock rate, is the sample read. */
  lemma InNs(sorted: seq<nat>, percentile: real, cyclesPerNs: real)
    requires sorted != [] && 0.0 <= percentile <= 100.0 && cyclesPerNs > 0.0
    ensures PercentileNs(sorted, percentile, cyclesPerNs) * cyclesPerNs ==
            sorted[PercentileIndex(percentile, |sorted|)] as real
  {
    hide PercentileIndex;
  }

  lemma IndexMonotone(p: real, q: real, n: nat)
    requires n > 0 && 0.0 <= p <= q <= 100.0
    ensures PercentileIndex(p, n) <= PercentileIndex(q, n)
  {
    ScaleMonotone(p, q, n as real);
    hide Mul;
    FloorMonotone(Mul(p, n as real) / 100.0, Mul(q, n as real) / 100.0);
  }

  lemma FloorMonotone(x: real, y: real)
    requires x <= y
    ensures x.Floor <= y.Floor
  {
  }

  /** Percentiles are monotone; hence the interquartile range is never negative. */
  lemma PercentileMonotone(sorted: seq<nat>, p: real, q: real, cyclesPerNs: real)
    requires sorted != [] && Ascending(sorted) && 0.0 <= p <= q <= 100.0 && cyclesPerNs > 0.0
    ensures PercentileNs(sorted, p, cyclesPerNs) <= PercentileNs(sorted, q, cyclesPerNs)
    ensures PercentileNs(sorted, 75.0, cyclesPerNs) - PercentileNs(sorted, 25.0, cyclesPerNs) >= 0.0
  {
    IndexMonotone(p, q, |sorted|);
    IndexMonotone(25.0, 75.0, |sorted|);
    DivideMonotone(sorted[PercentileIndex(p, |sorted|)], sorted[PercentileIndex(q, |sorted|)], cyclesPerNs);
    DivideMonotone(sorted[PercentileIndex(25.0, |sorted|)], sorted[PercentileIndex(75.0, |sorted|)], cyclesPerNs);
  }

  lemma DivideMonotone(a: nat, b: nat, c: real)
    requires a <= b && c > 0.0
    ensures a as real / c <= b as real / c
  {
    var x, y := a as real / c, b as real / c;
    assert x * c == a as real && y * c == b as real;
    assert (x - y) * c <= 0.0;
  }

  /** The 0th percentile is the time of the least kept sample and the 100th that of the greatest. */
  lemma Extremes(history: seq<Op>, capacity: nat, sorted: seq<nat>, cyclesPerNs: real) returns (least: nat, greatest: nat)
    requires Ascending(sorted) && multiset(sorted) == multiset(Kept(history, capacity))
    requires Kept(history, capacity) != [] && cyclesPerNs > 0.0
    ensures sorted != [] && least in Kept(history, capacity) && greatest in Kept(history, capacity)
    ensures forall x :: x in Kept(history, capacity) ==> least <= x <= greatest
    ensures PercentileNs(sorted, 0.0, cyclesPerNs) * cyclesPerNs == least as real
    ensures PercentileNs(sorted, 100.0, cyclesPerNs) * cyclesPerNs == greatest as real
  {
    var kept := Kept(history, capacity);
    SameLength(sorted, kept);
    var n := |sorted|;
    EndIndices(n);
    hide Kept, PercentileIndex, PercentileNs;
    least, greatest := sorted[0], sorted[n - 1];
    PermutationMember(sorted, kept, least);
    PermutationMember(sorted, kept, greatest);
    forall x | x in kept ensures least <= x <= greatest {
      PermutationMember(kept, sorted, x);
    }
    InNs(sorted, 0.0, cyclesPerNs);
    InNs(sorted, 100.0, cyclesPerNs);
  }

  lemma EndIndices(n: nat)
    requires n > 0
    ensures PercentileIndex(0.0, n) == 0 && PercentileIndex(100.0, n) == n - 1
  {
    assert Mul(0.0, n as real) / 100.0 == 0.0;
    assert Mul(100.0, n as real) / 100.0 == n as real;
  }

  // ---------------------------------------------------------------- mean and variance

  function Sum(s: seq<nat>): real {
    if s == [] then 0.0 else Sum(s[..|s| - 1]) + s[|s| - 1] as real
  }

  function SquareSum(s: seq<nat>): real {
    if s == [] then 0.0
    else SquareSum(s[..|s| - 1]) + Mul(s[|s| - 1] as real, s[|s| - 1] as real)
  }

  function Mean(s: seq<nat>): real
    requires s != []
  {
    Sum(s) / |s| as real
  }

  /** What `calculate_stdev` takes the absolute value and then the root of. */
  function Radicand(s: seq<nat>, mean: real): real
    requires s != []
  {
    SquareSum(s) / |s| as real - Mul(mean, mean)
  }

  /** The sum of squared deviations from m. */
  function Deviation(s: seq<nat>, m: real): (r: real)
    ensures r >= 0.0
  {
    if s == [] then 0.0
    else
      var d := s[|s| - 1] as real - m;
      Square(d);
      Deviation(s[..|s| - 1], m) + Mul(d, d)
  }

  lemma Square(d: real)
    ensures Mul(d, d) >= 0.0 && (Mul(d, d) == 0.0 <==> d == 0.0)
  {
    hide Mul;
  }

  lemma ExpandSquare(x: real, m: real)
    ensures Mul(x - m, x - m) == Mul(x, x) - 2.0 * Mul(m, x) + Mul(m, m)
  {
    assert (x - m) * (x - m) == x * (x - m) - m * (x - m);
    assert x * (x - m) == x * x - x * m;
    assert m * (x - m) == m * x - m * m;
  }

  lemma MulAdd(m: real, x: real, y: real)
    ensures Mul(m, x + y) == Mul(m, x) + Mul(m, y)
    ensures Mul(x + y, m) == Mul(x, m) + Mul(y, m)
  {
  }

  lemma MulUnit(m: real)
    ensures Mul(1.0, m) == m && Mul(0.0, m) == 0.0 && Mul(m, 0.0) == 0.0
  {
  }

  lemma {:induction false} DeviationExpanded(s: seq<nat>, m: real)
    ensures Deviation(s, m) == SquareSum(s) - 2.0 * Mul(m, Sum(s)) + Mul(|s| as real, Mul(m, m))
  {
    hide Mul;
    if s == [] {
      MulUnit(m);
      MulUnit(Mul(m, m));
    } else {
      var k := |s| - 1;
      DeviationExpanded(s[..k], m);
      ExpandSquare(s[k] as real, m);
      MulAdd(m, Sum(s[..k]), s[k] as real);
      MulAdd(Mul(m, m), k as real, 1.0);
      MulUnit(Mul(m, m));
      assert |s| as real == k as real + 1.0;
    }
  }

  lemma {:induction false} DeviationZero(s: seq<nat>, m: real)
    ensures Deviation(s, m) == 0.0 <==> forall i :: 0 <= i < |s| ==> s[i] as real == m
  {
    if s != [] {
      DeviationZero(s[..|s| - 1], m);
      Square(s[|s| - 1] as real - m);
    }
  }

  lemma {:induction false} SumOfEqual(s: seq<nat>, x: nat)
    requires forall i :: 0 <= i < |s| ==> s[i] == x
    ensures Sum(s) == |s| as real * x as real
  {
    if s != [] {
      SumOfEqual(s[..|s| - 1], x);
      assert |s| as real * x as real == (|s| - 1) as real * x as real + x as real;
    }
  }

  /** The mean is the one number from which the samples deviate least. */
  lemma MeanMinimises(s: seq<nat>, m: real)
    requires s != []
    ensures Deviation(s, Mean(s)) <= Deviation(s, m)
    ensures Deviation(s, Mean(s)) == Deviation(s, m) <==> m == Mean(s)
  {
    hide Mul;
    DeviationExpanded(s, m);
    DeviationExpanded(s, Mean(s));
    CompleteSquare(Sum(s), |s| as real, m);
    Square(m - Mean(s));
  }

  lemma CompleteSquare(sum: real, n: real, m: real)
    requires n >= 1.0
    ensures var mean := sum / n;
      var gap := (Mul(n, Mul(m, m)) - 2.0 * Mul(m, sum)) - (Mul(n, Mul(mean, mean)) - 2.0 * Mul(mean, sum));
      gap == Mul(n, Mul(m - mean, m - mean)) && (Mul(m - mean, m - mean) > 0.0 ==> gap > 0.0)
  {
    var mean := sum / n;
    assert sum == mean * n;
    ExpandSquare(m, mean);
    assert Mul(m, sum) == n * (m * mean) && Mul(mean, sum) == n * (mean * mean);
    assert Mul(mean, m) == m * mean;
  }

  /** The one-pass formula is the mean squared deviation. */
  lemma VarianceIdentity(s: seq<nat>)
    requires s != []
    ensures Radicand(s, Mean(s)) == Deviation(s, Mean(s)) / |s| as real
  {
    hide Mul;
    DeviationExpanded(s, Mean(s));
    OnePass(SquareSum(s), Sum(s), |s| as real);
  }

  lemma OnePass(squares: real, sum: real, n: real)
    requires n > 0.0
    ensures var m := sum / n;
      squares / n - Mul(m, m) == (squares - 2.0 * Mul(m, sum) + Mul(n, Mul(m, m))) / n
  {
    var m, q := sum / n, squares / n;
    assert sum == m * n && squares == q * n;
    assert m * (m * n) == n * (m * m);
    assert squares - 2.0 * (m * sum) + n * (m * m) == (q - m * m) * n;
    DivideBack(q - m * m, n);
  }

  lemma DivideBack(x: real, n: real)
    requires n > 0.0
    ensures x * n / n == x
  {
  }

  /** So `abs` changes nothing, and the deviation is zero exactly when all samples agree. */
  lemma VarianceSign(s: seq<nat>)
    requires s != []
    ensures Radicand(s, Mean(s)) >= 0.0
    ensures Radicand(s, Mean(s)) == 0.0 <==> forall i :: 0 <= i < |s| ==> s[i] == s[0]
  {
    VarianceIdentity(s);
    DeviationZero(s, Mean(s));
    QuotientSign(Deviation(s, Mean(s)), |s| as real);
    if forall i :: 0 <= i < |s| ==> s[i] == s[0] {
      SumOfEqual(s, s[0]);
      CancelFactor(s[0] as real, |s| as real);
    }
  }

  lemma QuotientSign(d: real, n: real)
    requires d >= 0.0 && n > 0.0
    ensures d / n >= 0.0 && (d / n == 0.0 <==> d == 0.0)
  {
    var q := d / n;
    assert q * n == d;
  }

  lemma CancelFactor(x: real, n: real)
    requires n > 0.0
    ensures n * x / n == x
  {
  }
}
