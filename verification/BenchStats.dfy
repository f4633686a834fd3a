/**
 The reduction of benchmark samples: a percentile per round, and the median of it across
 rounds, as scripts/bench-stats.py and scripts/bench-api-compare.py each compute it.
 Samples are exact numbers, and the percentile `num / den` is an exact fraction.
 */
module BenchStats {
  import opened Basics

  datatype Fraction = Fraction(num: nat, den: nat) {
    predicate Valid() {
      0 < num <= den
    }

    predicate AtMost(q: Fraction) {
      num * q.den <= q.num * den
    }
  }

  const P50 := Fraction(50, 100)
  const P95 := Fraction(95, 100)
  const P99 := Fraction(99, 100)

  // ----- sorting

  predicate Ascending(s: seq<real>) {
    forall i, j :: 0 <= i < j < |s| ==> s[i] <= s[j]
  }

  function Insert(x: real, s: seq<real>): (r: seq<real>)
    ensures |r| == |s| + 1
  {
    if s == [] || x <= s[0] then [x] + s else [s[0]] + Insert(x, s[1..])
  }

  /** `sorted(ms)`. */
  function Sort(s: seq<real>): (r: seq<real>)
    ensures |r| == |s|
  {
    if s == [] then [] else Insert(s[0], Sort(s[1..]))
  }

  /** How many samples are at most `x`. */
  function CountUpTo(s: seq<real>, x: real): (n: nat)
    ensures n <= |s|
  {
    if s == [] then 0 else (if s[0] <= x then 1 else 0) + CountUpTo(s[1..], x)
  }

  /** How many samples are below `x`. */
  function CountBelow(s: seq<real>, x: real): (n: nat)
    ensures n <= |s|
  {
    if s == [] then 0 else (if s[0] < x then 1 else 0) + CountBelow(s[1..], x)
  }

  lemma {:induction false} InsertKeeps(y: real, s: seq<real>, x: real)
    ensures CountUpTo(Insert(y, s), x) == CountUpTo([y] + s, x)
    ensures CountBelow(Insert(y, s), x) == CountBelow([y] + s, x)
  {
    assert ([y] + s)[1..] == s;
    if s != [] && y > s[0] {
      InsertKeeps(y, s[1..], x);
      assert ([y] + s[1..])[1..] == s[1..];
    }
  }

  lemma {:induction false} SortKeeps(s: seq<real>, x: real)
    ensures CountUpTo(Sort(s), x) == CountUpTo(s, x)
    ensures CountBelow(Sort(s), x) == CountBelow(s, x)
  {
    if s != [] {
      SortKeeps(s[1..], x);
      InsertKeeps(s[0], Sort(s[1..]), x);
      assert ([s[0]] + Sort(s[1..]))[1..] == Sort(s[1..]);
    }
  }

  lemma {:induction false} InsertAscends(x: real, s: seq<real>)
    requires Ascending(s)
    ensures Ascending(Insert(x, s))
    ensures s != [] ==> Insert(x, s)[0] == if x <= s[0] then x else s[0]
  {
    if s != [] && x > s[0] {
      InsertAscends(x, s[1..]);
      var r := Insert(x, s[1..]);
      assert s[0] <= r[0] by {
        if |s| == 1 { assert r == [x]; }
      }
    }
  }

  lemma {:induction false} SortAscends(s: seq<real>)
    ensures Ascending(Sort(s))
  {
    if s != [] {
      SortAscends(s[1..]);
      InsertAscends(s[0], Sort(s[1..]));
    }
  }

  /** In an ascending list the k-th sample is at most `x` exactly when more than k samples are. */
  lemma {:induction false} RankIsCount(s: seq<real>, k: nat, x: real)
    requires Ascending(s) && k < |s|
    ensures s[k] <= x <==> CountUpTo(s, x) > k
    ensures s[k] < x <==> CountBelow(s, x) > k
  {
    if s[0] > x {
      NoneUpTo(s, x);
    } else if k > 0 {
      RankIsCount(s[1..], k - 1, x);
    }
    if s[0] >= x {
      NoneBelow(s, x);
    }
  }

  lemma {:induction false} NoneUpTo(s: seq<real>, x: real)
    requires forall i :: 0 <= i < |s| ==> s[i] > x
    ensures CountUpTo(s, x) == 0
  {
    if s != [] {
      NoneUpTo(s[1..], x);
    }
  }

  lemma {:induction false} NoneBelow(s: seq<real>, x: real)
    requires forall i :: 0 <= i < |s| ==> s[i] >= x
    ensures CountBelow(s, x) == 0
  {
    if s != [] {
      NoneBelow(s[1..], x);
    }
  }

  // ----- percentiles

  /** The rank that both scripts use: the fraction of the length rounded down, held within the list. */
  function Rank(n: nat, p: Fraction): (r: nat)
    requires n > 0 && p.Valid()
    ensures 1 <= r <= n
  {
    var idx := n * p.num / p.den;
    RankWithin(n, p);
    if idx < 1 then 1 else idx
  }

  lemma RankWithin(n: nat, p: Fraction)
    requires p.Valid()
    ensures 0 <= n * p.num / p.den <= n
  {
    MulMonotone(n, p.num, p.den);
    DivMonotone(n * p.num, n * p.den, p.den);
    DivExact(n, p.den);
  }

  /** The rank is the whole part of the fraction of the length, or 1 when that is 0. */
  lemma RankIff(n: nat, p: Fraction, r: nat)
    requires n > 0 && p.Valid()
    ensures r == Rank(n, p) <==>
      (r * p.den <= n * p.num < (r + 1) * p.den && r >= 1) || (r == 1 && n * p.num < p.den)
  {
    var a, d := n * p.num, p.den;
    var q := a / d;
    RankWithin(n, p);
    assert a == d * q + a % d && q * d == d * q && (q + 1) * d == d * q + d;
    if r * d <= a < (r + 1) * d {
      assert (r + 1) * d == d * r + d && r * d == d * r;
      DivUnique(a, d, r, a - d * r);
    }
    if a < d {
      DivUnique(a, d, 0, a);
    }
  }

  /** The three ranks of a row, for a round of `n` samples. */
  lemma RanksOfRow(n: nat)
    requires n > 0
    ensures Rank(n, P50) == if n < 2 then 1 else n / 2
    ensures Rank(n, P95) == if n < 2 then 1 else 95 * n / 100
    ensures Rank(n, P99) == if n < 2 then 1 else 99 * n / 100
  {
  }

  lemma MulMonotone(n: nat, a: nat, b: nat)
    requires a <= b
    ensures n * a <= n * b
  {
  }

  lemma DivAtLeast(a: nat, d: nat, k: nat)
    requires d > 0 && d * k <= a
    ensures a / d >= k
  {
    if a / d < k {
      MulMonotone(d, a / d + 1, k);
    }
  }

  lemma DivMonotone(a: nat, b: nat, d: nat)
    requires a <= b && d > 0
    ensures 0 <= a / d <= b / d
  {
    DivAtLeast(b, d, a / d);
  }

  lemma DivUnique(a: nat, d: nat, q: nat, r: nat)
    requires a == d * q + r && r < d
    ensures a / d == q
  {
    DivAtLeast(a, d, q);
    if a / d > q {
      MulMonotone(d, q + 1, a / d);
    }
  }

  lemma DivExact(n: nat, d: nat)
    requires d > 0
    ensures n * d / d == n
  {
    assert n * d == d * n + 0;
    DivUnique(n * d, d, n, 0);
  }

  /** `pct` of bench-stats.py: clamped from below, then from above.  No samples, no number. */
  method Pct(sorted: seq<real>, p: Fraction) returns (v: Option<real>)
    requires p.Valid()
    ensures v == if sorted == [] then None else Some(sorted[Rank(|sorted|, p) - 1])
  {
    if sorted == [] {
      return None;
    }
    var idx := |sorted| * p.num / p.den;
    RankWithin(|sorted|, p);
    if idx < 1 {
      idx := 1;
    }
    if idx > |sorted| {
      idx := |sorted|;
    }
    v := Some(sorted[idx - 1]);
  }

  /** `pct` of bench-api-compare.py: the smaller with the length, then the larger with 1. */
  function PctCompared(sorted: seq<real>, p: Fraction): (v: Option<real>)
    requires p.Valid()
    ensures v == if sorted == [] then None else Some(sorted[Rank(|sorted|, p) - 1])
  {
    if sorted == [] then None
    else
      var idx := |sorted| * p.num / p.den;
      RankWithin(|sorted|, p);
      var low := if |sorted| <= idx then |sorted| else idx;
      Some(sorted[(if 1 >= low then 1 else low) - 1])
  }

  function Percentile(ms: seq<real>, p: Fraction): real
    requires ms != [] && p.Valid()
  {
    Sort(ms)[Rank(|ms|, p) - 1]
  }

  /**
   What the percentile is, with no sorting in it: at least that many samples reach up to it,
   and fewer are below it.
   */
  lemma PercentileIff(ms: seq<real>, p: Fraction, v: real)
    requires ms != [] && p.Valid() && v in ms
    ensures v == Percentile(ms, p) <==> CountBelow(ms, v) < Rank(|ms|, p) <= CountUpTo(ms, v)
  {
    var s, k := Sort(ms), Rank(|ms|, p) - 1;
    SortAscends(ms);
    SortKeeps(ms, v);
    RankIsCount(s, k, v);
  }

  /** The nearest rank: the fraction of the length rounded up. */
  function NearestRank(n: nat, p: Fraction): nat
    requires p.Valid()
  {
    (n * p.num + p.den - 1) / p.den
  }

  /**
   The rule is called nearest-rank in the script; it is that rule exactly when the fraction of
   the length is whole or below 1.
   */
  lemma NearestRankIff(n: nat, p: Fraction)
    requires n > 0 && p.Valid()
    ensures Rank(n, p) == NearestRank(n, p) <==> (n * p.num) % p.den == 0 || n * p.num < p.den
  {
    var a, d := n * p.num, p.den;
    MulMonotone(n, 1, p.num);
    var q, r := a / d, a % d;
    assert a == d * q + r;
    if r == 0 {
      DivUnique(a + d - 1, d, q, d - 1);
    } else {
      DivUnique(a + d - 1, d, q + 1, r - 1);
    }
    if a < d {
      DivUnique(a, d, 0, a);
    } else {
      DivMonotone(d, a, d);
    }
  }

  /** Of thirty samples the 95th percentile is taken as the 28th; the nearest rank is the 29th. */
  lemma ThirtySamples(ms: seq<real>)
    requires |ms| == 30 && Ascending(ms) && ms[27] < ms[28]
    ensures Rank(30, P95) == 28 && NearestRank(30, P95) == 29
    ensures PctCompared(ms, P95) == Some(ms[27]) && ms[27] < ms[NearestRank(30, P95) - 1]
  {
  }

  lemma RankMonotone(n: nat, p: Fraction, q: Fraction)
    requires n > 0 && p.Valid() && q.Valid() && p.AtMost(q)
    ensures Rank(n, p) <= Rank(n, q)
  {
    var a, b := n * p.num / p.den, n * q.num / q.den;
    FloorMonotone(n, p, q);
  }

  lemma FloorMonotone(n: nat, p: Fraction, q: Fraction)
    requires p.Valid() && q.Valid() && p.AtMost(q)
    ensures n * p.num / p.den <= n * q.num / q.den
  {
    var a := n * p.num / p.den;
    FloorTimes(n * p.num, p.den);
    CrossMultiply(n, p.num, p.den, q.num, q.den, a);
    DivAtLeast(n * q.num, q.den, a);
  }

  lemma FloorTimes(x: nat, d: nat)
    requires d > 0
    ensures 0 <= d * (x / d) <= x
  {
  }

  lemma CrossMultiply(n: nat, pn: nat, pd: nat, qn: nat, qd: nat, a: nat)
    requires pd > 0 && pd * a <= n * pn && pn * qd <= qn * pd
    ensures qd * a <= n * qn
  {
    calc <= {
      pd * (qd * a);
    == { Swap(pd, qd, a); }
      qd * (pd * a);
    <= { MulMonotone(qd, pd * a, n * pn); }
      qd * (n * pn);
    == { Rotate(qd, n, pn); }
      n * (pn * qd);
    <= { MulMonotone(n, pn * qd, qn * pd); }
      n * (qn * pd);
    == { Rotate(pd, n, qn); }
      pd * (n * qn);
    }
    Cancel(pd, qd * a, n * qn);
  }

  lemma Swap(x: nat, y: nat, z: nat)
    ensures x * (y * z) == y * (x * z)
  {
  }

  lemma Rotate(x: nat, y: nat, z: nat)
    ensures x * (y * z) == y * (z * x)
  {
  }

  lemma Cancel(d: nat, x: nat, y: nat)
    requires d > 0 && d * x <= d * y
    ensures x <= y
  {
    if x > y {
      MulMonotone(d, y + 1, x);
    }
  }

  /** Within one round a higher percentile is never a smaller value. */
  lemma PercentileMonotone(ms: seq<real>, p: Fraction, q: Fraction)
    requires ms != [] && p.Valid() && q.Valid() && p.AtMost(q)
    ensures Percentile(ms, p) <= Percentile(ms, q)
  {
    RankMonotone(|ms|, p, q);
    SortAscends(ms);
  }

  // ----- medians

  /** `statistics.median`. */
  function Median(vals: seq<real>): real
    requires vals != []
  {
    var s, n := Sort(vals), |vals|;
    if n % 2 == 1 then s[n / 2] else (s[n / 2 - 1] + s[n / 2]) / 2.0
  }

  /** The median has at least half of the values up to it and at most half below it. */
  lemma MedianSplits(vals: seq<real>)
    requires vals != []
    ensures 2 * CountUpTo(vals, Median(vals)) >= |vals| >= 2 * CountBelow(vals, Median(vals))
  {
    var s, k, m := Sort(vals), |vals| / 2, Median(vals);
    SortAscends(vals);
    SortKeeps(vals, m);
    RankIsCount(s, k, m);
    if |vals| % 2 == 0 {
      assert s[k - 1] <= s[k];
      assert s[k - 1] <= m <= s[k];
      RankIsCount(s, k - 1, m);
    }
    hide *;
    assert |vals| == 2 * k + |vals| % 2;
  }

  /** `x` is the `k`-th smallest of the values, counted from 0. */
  predicate IsNth(vals: seq<real>, k: nat, x: real) {
    CountBelow(vals, x) <= k < CountUpTo(vals, x)
  }

  /** Some value is the `k`-th smallest, and only one. */
  lemma NthIff(vals: seq<real>, k: nat, x: real)
    requires k < |vals|
    ensures IsNth(vals, k, x) <==> x == Sort(vals)[k]
  {
    SortAscends(vals);
    SortKeeps(vals, x);
    RankIsCount(Sort(vals), k, x);
  }

  predicate IsLowMiddle(vals: seq<real>, x: real)
    requires vals != []
  {
    IsNth(vals, (|vals| - 1) / 2, x)
  }

  predicate IsHighMiddle(vals: seq<real>, x: real) {
    IsNth(vals, |vals| / 2, x)
  }

  /** The median is half the sum of the two middle values, which are one when their number is odd. */
  lemma MedianIff(vals: seq<real>, m: real)
    requires vals != []
    ensures m == Median(vals) <==>
      exists a: real, b: real :: IsLowMiddle(vals, a) && IsHighMiddle(vals, b) && m == (a + b) / 2.0
  {
    var s, n := Sort(vals), |vals|;
    forall x: real ensures IsLowMiddle(vals, x) <==> x == s[(n - 1) / 2] {
      NthIff(vals, (n - 1) / 2, x);
    }
    forall x: real ensures IsHighMiddle(vals, x) <==> x == s[n / 2] {
      NthIff(vals, n / 2, x);
    }
    assert n % 2 == 1 ==> (n - 1) / 2 == n / 2;
    assert n % 2 == 0 ==> (n - 1) / 2 == n / 2 - 1;
    var a, b := s[(n - 1) / 2], s[n / 2];
    assert Median(vals) == (a + b) / 2.0;
    hide *;
    assert IsLowMiddle(vals, a) && IsHighMiddle(vals, b);
  }

  predicate Below(a: seq<real>, b: seq<real>) {
    |a| == |b| && forall i :: 0 <= i < |a| ==> a[i] <= b[i]
  }

  lemma {:induction false} CountFalls(a: seq<real>, b: seq<real>, x: real)
    requires Below(a, b)
    ensures CountUpTo(a, x) >= CountUpTo(b, x)
  {
    if a != [] {
      CountFalls(a[1..], b[1..], x);
    }
  }

  /** Sorting two lists keeps the one below the other, place by place. */
  lemma SortKeepsBelow(a: seq<real>, b: seq<real>, k: nat)
    requires Below(a, b) && k < |a|
    ensures Sort(a)[k] <= Sort(b)[k]
  {
    var x := Sort(b)[k];
    SortAscends(a);
    SortAscends(b);
    RankIsCount(Sort(a), k, x);
    RankIsCount(Sort(b), k, x);
    SortKeeps(a, x);
    SortKeeps(b, x);
    CountFalls(a, b, x);
  }

  lemma MedianMonotone(a: seq<real>, b: seq<real>)
    requires Below(a, b) && a != []
    ensures Median(a) <= Median(b)
  {
    SortKeepsBelow(a, b, |a| / 2);
    if |a| % 2 == 0 {
      SortKeepsBelow(a, b, |a| / 2 - 1);
    }
  }

  // ----- rows

  predicate NonEmptyRounds(rounds: seq<seq<real>>) {
    forall i :: 0 <= i < |rounds| ==> rounds[i] != []
  }

  function PerRound(rounds: seq<seq<real>>, p: Fraction): (vs: seq<real>)
    requires NonEmptyRounds(rounds) && p.Valid()
    ensures |vs| == |rounds| && forall i :: 0 <= i < |vs| ==> vs[i] == Percentile(rounds[i], p)
  {
    seq(|rounds|, i requires 0 <= i < |rounds| => Percentile(rounds[i], p))
  }

  /** The cell of an endpoint: the median across rounds of the percentile of each round. */
  function Cell(rounds: seq<seq<real>>, p: Fraction): real
    requires rounds != [] && NonEmptyRounds(rounds) && p.Valid()
  {
    Median(PerRound(rounds, p))
  }

  /** A value of a round, or not a number for a round without samples. */
  type Value = Option<real>

  /** The order in which the scripts sort values.  Of numbers it is the ascending one. */
  type Order = seq<Value> -> seq<Value>

  function Numbers(vals: seq<real>): (vs: seq<Value>)
    ensures |vs| == |vals| && forall i :: 0 <= i < |vals| ==> vs[i] == Some(vals[i])
  {
    seq(|vals|, i requires 0 <= i < |vals| => Some(vals[i]))
  }

  ghost predicate SortsNumbers(order: Order) {
    && (forall vs :: |order(vs)| == |vs|)
    && forall vals: seq<real> :: order(Numbers(vals)) == Numbers(Sort(vals))
  }

  lemma KeepsLength(order: Order, vs: seq<Value>)
    requires SortsNumbers(order)
    ensures |order(vs)| == |vs|
  {
  }

  /** `statistics.median` of a sorted list; half of a sum with a value that is not a number is not one either. */
  function Middle(sorted: seq<Value>): Value
    requires sorted != []
  {
    var k := |sorted| / 2;
    if |sorted| % 2 == 1 then sorted[k]
    else if sorted[k - 1].Some? && sorted[k].Some? then Some((sorted[k - 1].value + sorted[k].value) / 2.0)
    else None
  }

  /** The middle of a list with missing values: missing when one of the middle values is, and else half their sum. */
  lemma MiddleIs(sorted: seq<Value>)
    requires sorted != []
    ensures var a, b := sorted[(|sorted| - 1) / 2], sorted[|sorted| / 2];
      && (Middle(sorted) == None <==> a == None || b == None)
      && (a.Some? && b.Some? ==> Middle(sorted) == Some((a.value + b.value) / 2.0))
  {
  }

  function Values(rounds: seq<seq<real>>, p: Fraction): (vs: seq<Value>)
    requires p.Valid()
    ensures |vs| == |rounds|
    ensures forall i :: 0 <= i < |vs| ==> vs[i] == PctCompared(Sort(rounds[i]), p)
  {
    seq(|rounds|, i requires 0 <= i < |rounds| => PctCompared(Sort(rounds[i]), p))
  }

  lemma ValuesGrow(rounds: seq<seq<real>>, i: nat, p: Fraction)
    requires p.Valid() && i < |rounds|
    ensures Values(rounds[..i + 1], p) == Values(rounds[..i], p) + [PctCompared(Sort(rounds[i]), p)]
  {
    hide PctCompared, Sort;
    assert rounds[..i + 1][..i] == rounds[..i] && rounds[..i + 1][i] == rounds[i];
  }

  lemma MiddleIsCell(order: Order, rounds: seq<seq<real>>, p: Fraction)
    requires SortsNumbers(order) && rounds != [] && NonEmptyRounds(rounds) && p.Valid()
    ensures Middle(order(Values(rounds, p))) == Some(Cell(rounds, p))
  {
    hide Sort;
    assert Values(rounds, p) == Numbers(PerRound(rounds, p));
  }

  /** One row of the panel, the way `main` of bench-stats.py fills it. */
  method Row(order: Order, rounds: seq<seq<real>>) returns (p50: Value, p95: Value, p99: Value)
    requires rounds != [] && SortsNumbers(order)
    ensures p50 == Middle(order(Values(rounds, P50)))
    ensures p95 == Middle(order(Values(rounds, P95)))
    ensures p99 == Middle(order(Values(rounds, P99)))
    ensures NonEmptyRounds(rounds) ==>
      p50 == Some(Cell(rounds, P50)) && p95 == Some(Cell(rounds, P95)) && p99 == Some(Cell(rounds, P99))
  {
    hide Cell, Middle, Sort, Rank, Values, PctCompared, SortsNumbers, NonEmptyRounds;
    var p50s: seq<Value>, p95s: seq<Value>, p99s: seq<Value> := [], [], [];
    for i := 0 to |rounds|
      invariant p50s == Values(rounds[..i], P50)
      invariant p95s == Values(rounds[..i], P95)
      invariant p99s == Values(rounds[..i], P99)
    {
      ValuesGrow(rounds, i, P50);
      ValuesGrow(rounds, i, P95);
      ValuesGrow(rounds, i, P99);
      var s := Sort(rounds[i]);
      var a := Pct(s, P50);
      var b := Pct(s, P95);
      var c := Pct(s, P99);
      p50s, p95s, p99s := p50s + [a], p95s + [b], p99s + [c];
    }
    assert rounds[..|rounds|] == rounds;
    KeepsLength(order, p50s);
    KeepsLength(order, p95s);
    KeepsLength(order, p99s);
    p50, p95, p99 := Middle(order(p50s)), Middle(order(p95s)), Middle(order(p99s));
    if NonEmptyRounds(rounds) {
      MiddleIsCell(order, rounds, P50);
      MiddleIsCell(order, rounds, P95);
      MiddleIsCell(order, rounds, P99);
    }
  }

  /** `stat_cell` of bench-api-compare.py: no rounds, no cell. */
  function StatCell(order: Order, rounds: seq<seq<real>>, p: Fraction): (v: Option<Value>)
    requires p.Valid() && SortsNumbers(order)
    ensures v == None <==> rounds == []
    ensures rounds != [] && NonEmptyRounds(rounds) ==> v == Some(Some(Cell(rounds, p)))
  {
    var vals := seq(|rounds|, i requires 0 <= i < |rounds| => PctCompared(Sort(rounds[i]), p));
    if vals == [] then None
    else
      assert vals == Values(rounds, p);
      assert NonEmptyRounds(rounds) ==> Middle(order(vals)) == Some(Cell(rounds, p)) by {
        if NonEmptyRounds(rounds) { MiddleIsCell(order, rounds, p); }
      }
      Some(Middle(order(vals)))
  }

  /** Every row is ascending: what holds in each round carries over to the medians across rounds. */
  lemma RowAscends(rounds: seq<seq<real>>)
    requires rounds != [] && NonEmptyRounds(rounds)
    ensures Cell(rounds, P50) <= Cell(rounds, P95) <= Cell(rounds, P99)
  {
    CellMonotone(rounds, P50, P95);
    CellMonotone(rounds, P95, P99);
  }

  lemma CellMonotone(rounds: seq<seq<real>>, p: Fraction, q: Fraction)
    requires rounds != [] && NonEmptyRounds(rounds) && p.Valid() && q.Valid() && p.AtMost(q)
    ensures Cell(rounds, p) <= Cell(rounds, q)
  {
    forall i | 0 <= i < |rounds| ensures PerRound(rounds, p)[i] <= PerRound(rounds, q)[i] {
      PercentileMonotone(rounds[i], p, q);
    }
    MedianMonotone(PerRound(rounds, p), PerRound(rounds, q));
  }
}
