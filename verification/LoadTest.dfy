/** One scenario of the sustained load test and its percentiles (scripts/runFullScaleLoadTest.ts). */
module LoadTest {
  import opened Doubles

  /** How one request ended: its latency, and whether its status was expected. */
  datatype Completion = Completion(latencyMs: int, expected: bool)

  /** The loop's counters. */
  class Scenario {
    var latenciesMs: seq<int>
    var successful: nat
    var unexpectedFailed: nat
    var reqCounter: nat

    constructor ()
      ensures latenciesMs == [] && successful == unexpectedFailed == reqCounter == 0
    {
      latenciesMs, successful, unexpectedFailed, reqCounter := [], 0, 0, 0;
    }

    /** A batch: every request is issued, then they complete in any order. */
    method RunBatch(completions: seq<Completion>)
      modifies this
      ensures reqCounter == old(reqCounter) + |completions|
      ensures latenciesMs == old(latenciesMs) + Latencies(completions)
      ensures successful + unexpectedFailed == old(successful) + old(unexpectedFailed) + |completions|
      ensures successful == old(successful) + Expected(completions)
    {
      reqCounter := reqCounter + |completions|;
      for i := 0 to |completions|
        invariant reqCounter == old(reqCounter) + |completions|
        invariant latenciesMs == old(latenciesMs) + Latencies(completions[..i])
        invariant successful + unexpectedFailed == old(successful) + old(unexpectedFailed) + i
        invariant successful == old(successful) + Expected(completions[..i])
      {
        assert completions[..i + 1][..i] == completions[..i];
        latenciesMs := latenciesMs + [completions[i].latencyMs];
        if completions[i].expected {
          successful := successful + 1;
        } else {
          unexpectedFailed := unexpectedFailed + 1;
        }
      }
      assert completions[..|completions|] == completions;
    }

    /** All batches of a scenario: every request issued is counted once and leaves one latency. */
    method Run(batches: seq<seq<Completion>>)
      modifies this
      requires |latenciesMs| == successful + unexpectedFailed == reqCounter
      ensures |latenciesMs| == successful + unexpectedFailed == reqCounter
      ensures latenciesMs == old(latenciesMs) + Latencies(Flatten(batches))
      ensures successful == old(successful) + Expected(Flatten(batches))
      ensures var all := Flatten(batches);
              successful == old(successful) + |set i | 0 <= i < |all| && all[i].expected|
    {
      for i := 0 to |batches|
        invariant |latenciesMs| == successful + unexpectedFailed == reqCounter
        invariant latenciesMs == old(latenciesMs) + Latencies(Flatten(batches[..i]))
        invariant successful == old(successful) + Expected(Flatten(batches[..i]))
      {
        assert batches[..i + 1][..i] == batches[..i];
        Appended(Flatten(batches[..i]), batches[i]);
        RunBatch(batches[i]);
      }
      assert batches[..|batches|] == batches;
      ExpectedCounts(Flatten(batches));
    }
  }

  function Latencies(cs: seq<Completion>): (r: seq<int>)
    ensures |r| == |cs| && forall i | 0 <= i < |cs| :: r[i] == cs[i].latencyMs
  {
    if cs == [] then [] else Latencies(cs[..|cs| - 1]) + [cs[|cs| - 1].latencyMs]
  }

  function Expected(cs: seq<Completion>): nat {
    if cs == [] then 0 else Expected(cs[..|cs| - 1]) + if cs[|cs| - 1].expected then 1 else 0
  }

  /** Exactly the expected completions are counted as successes. */
  lemma {:induction false} ExpectedCounts(cs: seq<Completion>)
    ensures Expected(cs) == |set i | 0 <= i < |cs| && cs[i].expected|
    decreases |cs|
  {
    if cs != [] {
      var n, shorter := |cs| - 1, cs[..|cs| - 1];
      ExpectedCounts(shorter);
      var before := set i | 0 <= i < |shorter| && shorter[i].expected;
      var all := set i | 0 <= i < |cs| && cs[i].expected;
      assert all == before + if cs[n].expected then {n} else {};
    }
  }

  function Flatten(batches: seq<seq<Completion>>): seq<Completion> {
    if batches == [] then [] else Flatten(batches[..|batches| - 1]) + batches[|batches| - 1]
  }

  lemma {:induction false} Appended(a: seq<Completion>, b: seq<Completion>)
    ensures Latencies(a + b) == Latencies(a) + Latencies(b) && Expected(a + b) == Expected(a) + Expected(b)
    decreases |b|
  {
    if b == [] {
      assert a + b == a;
    } else {
      Appended(a, b[..|b| - 1]);
      assert (a + b)[..|a + b| - 1] == a + b[..|b| - 1];
    }
  }

  // ---------- Sorting and percentiles ----------

  function Insert(x: int, s: seq<int>): seq<int> {
    if s == [] || x <= s[0] then [x] + s else [s[0]] + Insert(x, s[1..])
  }

  /** latenciesMs.sort((a, b) => a - b). */
  function Sort(s: seq<int>): seq<int> {
    if s == [] then [] else Insert(s[0], Sort(s[1..]))
  }

  predicate Ascending(s: seq<int>) {
    forall i, j | 0 <= i < j < |s| :: s[i] <= s[j]
  }

  /** Math.ceil. */
  function Ceil(x: real): int {
    -((-x).Floor)
  }

  function Clamp(i: int, n: nat): (k: nat)
    requires n > 0
    ensures k < n
  {
    if i < 0 then 0 else if i < n then i else n - 1
  }

  /** How many of n samples the percentage asks for. */
  function Share(p: real, n: nat): real {
    Times(p / 100.0, n as real)
  }

  /** The product (p / 100) * n as it is computed, both operations rounded. */
  function Computed(rn: real -> real, p: real, n: nat): real {
    rn(Times(rn(p / 100.0), n as real))
  }

  /** The rank'th smallest latency, or zero without any. */
  function GetPercentile(rn: real -> real, sorted: seq<int>, p: real): int {
    if sorted == [] then 0 else sorted[Clamp(Ceil(Computed(rn, p, |sorted|)) - 1, |sorted|)]
  }

  /** Samples at most x, and samples below x. */
  function AtMost(s: seq<int>, x: int): (n: nat)
    ensures n <= |s|
  {
    if s == [] then 0 else (if s[0] <= x then 1 else 0) + AtMost(s[1..], x)
  }

  function Below(s: seq<int>, x: int): nat {
    AtMost(s, x - 1)
  }

  lemma {:induction false} InsertSorts(x: int, s: seq<int>)
    requires Ascending(s)
    ensures Ascending(Insert(x, s)) && |Insert(x, s)| == |s| + 1
    ensures forall y | y in Insert(x, s) :: y == x || y in s
    decreases |s|
  {
    if s != [] && x > s[0] {
      var rest := Insert(x, s[1..]);
      InsertSorts(x, s[1..]);
      assert forall y | y in rest :: s[0] <= y;
      assert forall i | 0 <= i < |rest| :: rest[i] in rest;
    }
  }

  lemma {:induction false} InsertCounts(x: int, s: seq<int>, y: int)
    ensures AtMost(Insert(x, s), y) == (if x <= y then 1 else 0) + AtMost(s, y)
    decreases |s|
  {
    if s == [] || x <= s[0] {
      assert ([x] + s)[1..] == s;
    } else {
      InsertCounts(x, s[1..], y);
      assert ([s[0]] + Insert(x, s[1..]))[1..] == Insert(x, s[1..]);
    }
  }

  /** Sorting keeps every sample: the counts on either side of any value are those of the sample. */
  lemma {:induction false} SortKeepsCounts(s: seq<int>, x: int)
    ensures Ascending(Sort(s)) && |Sort(s)| == |s| && AtMost(Sort(s), x) == AtMost(s, x)
    ensures forall y | y in Sort(s) :: y in s
    decreases |s|
  {
    if s != [] {
      SortKeepsCounts(s[1..], x);
      InsertSorts(s[0], Sort(s[1..]));
      InsertCounts(s[0], Sort(s[1..]), x);
    }
  }

  /** In ascending order the samples at most x are a prefix. */
  lemma {:induction false} AtMostIsPrefix(s: seq<int>, x: int, k: nat)
    requires Ascending(s) && k < |s|
    ensures s[k] <= x <==> AtMost(s, x) > k
    decreases |s|
  {
    if k == 0 {
      if s[0] > x {
        NoneAtMost(s, x);
      }
    } else {
      AtMostIsPrefix(s[1..], x, k - 1);
      if s[0] > x {
        NoneAtMost(s, x);
      }
    }
  }

  lemma {:induction false} NoneAtMost(s: seq<int>, x: int)
    requires forall i | 0 <= i < |s| :: s[i] > x
    ensures AtMost(s, x) == 0
    decreases |s|
  {
    if s != [] {
      NoneAtMost(s[1..], x);
    }
  }

  /** x covers the percentage, and the samples below it do not. */
  predicate IsNearestRank(sample: seq<int>, p: real, x: int) {
    && AtMost(sample, x) as real >= Share(p, |sample|)
    && !(Below(sample, x) as real >= Share(p, |sample|))
  }

  lemma CeilExact(t: real, c: int)
    ensures c as real >= t <==> c >= Ceil(t)
  {
    if c as real >= t {
      assert (-c) as real <= -t;
      assert (-t).Floor >= -c;
    }
  }

  lemma ShareInRange(p: real, n: nat)
    requires n > 0 && 0.0 < p <= 100.0
    ensures 0 <= Ceil(Share(p, n)) - 1 < n
  {
    ShareGrows(p, 100.0, n);
    CeilExact(Share(p, n), n);
    CeilExact(Share(p, n), 0);
  }

  lemma ShareGrows(p: real, q: real, n: nat)
    requires p <= q
    ensures Share(p, n) <= Share(q, n)
  {
    var a, b, m := p / 100.0, q / 100.0, n as real;
    assert a <= b && (b - a) * m >= 0.0;
  }

  // ---------- The computed rank ----------

  const UNIT: real := 1.0 / SIGNIFICAND as real

  /** The percentages the scenario asks for. */
  predicate IsCalled(p: real) { p == 50.0 || p == 95.0 || p == 99.0 }

  /** These fractions are rounded down, by less than one unit in the last place. */
  lemma FractionsRoundDown(rn: real -> real, p: real)
    requires RoundsToNearest(rn) && IsCalled(p)
    ensures p / 100.0 - UNIT <= rn(p / 100.0) <= p / 100.0
  {
    Powers();
    if p == 50.0 {
      FractionIsRepresentable(0.5, SIGNIFICAND / 2, 53);
      RepresentableKept(rn, 0.5);
    } else if p == 95.0 {
      RoundsToMultiple(rn, 0.95, 8556839292003942.0 * UNIT, 8556839292003942, 53);
    } else {
      RoundsToMultiple(rn, 0.99, 8917127262193582.0 * UNIT, 8917127262193582, 53);
    }
  }

  /** Hundredths above an integer leave room for a representable value. */
  lemma RoomAbove(rn: real -> real, below: int)
    requires RoundsToNearest(rn) && -1 <= below <= 0x100_0000_0000
    ensures var h := below as real + 1.0 / 128.0; rn(h) == h && rn((below + 1) as real) == (below + 1) as real
  {
    Powers();
    var h := below as real + 1.0 / 128.0;
    assert h * 128.0 == (128 * below + 1) as real;
    assert IsScaled(h, 128 * below + 1, 7);
    RepresentableKept(rn, h);
    assert IsScaled((below + 1) as real, below + 1, 0);
    RepresentableKept(rn, (below + 1) as real);
  }

  /** Rounding keeps a product with room above the integer below it at the same ceiling. */
  lemma SameCeiling(rn: real -> real, product: real, c: int)
    requires RoundsToNearest(rn) && 0 <= c <= 0x100_0000_0000
    requires (c - 1) as real + 1.0 / 128.0 <= product <= c as real
    ensures Ceil(rn(product)) == c
  {
    RoomAbove(rn, c - 1);
    RoundingIsMonotone(rn, product, c as real);
    RoundingIsMonotone(rn, (c - 1) as real + 1.0 / 128.0, product);
    CeilExact(rn(product), c);
    CeilExact(rn(product), c - 1);
  }

  /** A fraction rounded down by at most a unit gives a product with that room. */
  lemma ProductHasRoom(fraction: real, p: real, n: nat, c: int)
    requires n <= 0x100_0000_0000 && (c - 1) as real + 0.01 <= Share(p, n) <= c as real
    requires p / 100.0 - UNIT <= fraction <= p / 100.0
    ensures (c - 1) as real + 1.0 / 128.0 <= Times(fraction, n as real) <= c as real
  {
    hide Times;
    Between(p / 100.0 - UNIT, fraction, p / 100.0, n as real);
    UnitLess(p / 100.0, n);
  }

  lemma UnitLess(fraction: real, n: nat)
    requires n <= 0x100_0000_0000
    ensures Times(fraction - UNIT, n as real) >= Times(fraction, n as real) - 1.0 / 8192.0
  {
    var m := n as real;
    assert (fraction - UNIT) * m == fraction * m - UNIT * m;
    assert UNIT * m <= UNIT * 1099511627776.0;
  }

  /** The ceiling of a share of hundredths, and the room below it. */
  lemma ShareCeiling(p: real, n: nat) returns (c: int)
    requires IsCalled(p)
    ensures c == Ceil(Share(p, n)) && 0 <= c <= n && (c - 1) as real + 0.01 <= Share(p, n) <= c as real
  {
    var t := Share(p, n);
    c := Ceil(t);
    Between(0.0, p / 100.0, 1.0, n as real);
    CeilExact(t, c);
    CeilExact(t, c - 1);
    CeilExact(t, n);
    CeilExact(t, -1);
    HundredthsAbove(p, n, c - 1);
  }

  /** For the percentages called and a sample of up to 2^40 latencies, the rounded product has the rank of
      the exact one. */
  lemma ComputedRankIsExact(rn: real -> real, p: real, n: nat)
    requires RoundsToNearest(rn) && IsCalled(p) && n <= 0x100_0000_0000
    ensures Ceil(Computed(rn, p, n)) == Ceil(Share(p, n))
  {
    hide Times;
    var c := ShareCeiling(p, n);
    FractionsRoundDown(rn, p);
    var fraction := rn(p / 100.0);
    ProductHasRoom(fraction, p, n, c);
    SameCeiling(rn, Times(fraction, n as real), c);
  }

  /** A share is a whole number of hundredths. */
  lemma HundredthsAbove(p: real, n: nat, below: int)
    requires IsCalled(p) && Share(p, n) > below as real
    ensures Share(p, n) >= below as real + 0.01
  {
    var percent := if p == 50.0 then 50 else if p == 95.0 then 95 else 99;
    assert Share(p, n) * 100.0 == (percent * n) as real;
    assert percent * n > 100 * below;
  }

  /** The rank decides: only the value at it is a nearest rank of the sample. */
  lemma OnlyAtRank(sample: seq<int>, p: real, y: int)
    requires sample != [] && 0.0 < p <= 100.0
    ensures var s, k := Sort(sample), Ceil(Share(p, |sample|)) - 1;
            0 <= k < |s| && (IsNearestRank(sample, p, y) <==> y == s[k])
  {
    var s, k := Sort(sample), Ceil(Share(p, |sample|)) - 1;
    ShareInRange(p, |sample|);
    SortKeepsCounts(sample, y);
    SortKeepsCounts(sample, y - 1);
    AtMostIsPrefix(s, y, k);
    AtMostIsPrefix(s, y - 1, k);
    CeilExact(Share(p, |sample|), AtMost(sample, y));
    CeilExact(Share(p, |sample|), Below(sample, y));
  }

  /** The percentile the scenario reports, of a non-empty sample of up to 2^40 latencies, is one of its
      values, and the only nearest rank there is. */
  lemma PercentileIsNearestRank(rn: real -> real, sample: seq<int>, p: real, y: int)
    requires RoundsToNearest(rn) && IsCalled(p) && 0 < |sample| <= 0x100_0000_0000
    ensures GetPercentile(rn, Sort(sample), p) in sample
    ensures IsNearestRank(sample, p, y) <==> y == GetPercentile(rn, Sort(sample), p)
  {
    ComputedRankIsExact(rn, p, |sample|);
    OnlyAtRank(sample, p, y);
    SortKeepsCounts(sample, 0);
    var s := Sort(sample);
    assert s[Ceil(Share(p, |s|)) - 1] in s;
  }

  /** For other percentages the computed rank can be one too high: the seventh percentile of a hundred
      latencies is looked up at rank 8. */
  lemma SeventhPercentileIsOffByOne(rn: real -> real)
    requires RoundsToNearest(rn)
    ensures Ceil(Share(7.0, 100)) == 7 && Ceil(Computed(rn, 7.0, 100)) == 8
  {
    Powers();
    RoundsToMultiple(rn, 0.07, 5044031582654956.0 * (UNIT / 8.0), 5044031582654956, 56);
    RoundsToMultiple(rn, Times(rn(0.07), 100.0), 7881299347898369.0 * (UNIT * 8.0), 7881299347898369, 50);
    var computed := Computed(rn, 7.0, 100);
    CeilExact(computed, 7);
    CeilExact(computed, 8);
    CeilExact(7.0, 7);
    CeilExact(7.0, 6);
  }

  lemma ComputedGrows(rn: real -> real, p: real, q: real, n: nat)
    requires RoundsToNearest(rn) && p <= q
    ensures Computed(rn, p, n) <= Computed(rn, q, n)
  {
    hide Times;
    var low, high := rn(p / 100.0), rn(q / 100.0);
    RoundingIsMonotone(rn, p / 100.0, q / 100.0);
    Between(low, high, high, n as real);
    RoundingIsMonotone(rn, Times(low, n as real), Times(high, n as real));
  }

  /** Without samples the percentile is zero. */
  lemma NoSamplesGiveZero(rn: real -> real, p: real)
    ensures GetPercentile(rn, Sort([]), p) == 0
  {
  }

  /** Larger percentages never give smaller latencies, whatever they are and however ties round:
      p50 <= p95 <= p99. */
  lemma PercentilesAreMonotone(rn: real -> real, sample: seq<int>, p: real, q: real)
    requires RoundsToNearest(rn) && p <= q
    ensures GetPercentile(rn, Sort(sample), p) <= GetPercentile(rn, Sort(sample), q)
  {
    hide Times, RoundsToNearest;
    var s := Sort(sample);
    SortKeepsCounts(sample, 0);
    ComputedGrows(rn, p, q, |s|);
    var x, y := Computed(rn, p, |s|), Computed(rn, q, |s|);
    CeilExact(y, Ceil(y));
    CeilExact(x, Ceil(y));
  }
}
