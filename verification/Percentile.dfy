/** The percentile of the load report: a rank rounded half to even into the sorted samples. */
module Percentile {

  /** Python's `round(x)`: to the nearest integer, ties to the even one. */
  function Round(x: real): int {
    var f := x.Floor;
    if x - f as real < 0.5 then f
    else if x - f as real > 0.5 then f + 1
    else if f % 2 == 0 then f else f + 1
  }

  /** `round(x, 3)`. */
  function Round3(x: real): real {
    Round(x * 1000.0) as real / 1000.0
  }

  function Insert(x: real, s: seq<real>): seq<real> {
    if s == [] || x <= s[0] then [x] + s else [s[0]] + Insert(x, s[1..])
  }

  /** `sorted(samples)`. */
  function Sorted(s: seq<real>): (r: seq<real>)
    ensures |r| == |s|
  {
    if s == [] then [] else InsertLength(s[0], Sorted(s[1..])); Insert(s[0], Sorted(s[1..]))
  }

  lemma {:induction false} InsertLength(x: real, s: seq<real>)
    ensures |Insert(x, s)| == |s| + 1
  {
    if s != [] { InsertLength(x, s[1..]); }
  }

  ghost predicate Ascending(s: seq<real>) {
    forall i, j :: 0 <= i <= j < |s| ==> s[i] <= s[j]
  }

  /** `(len(ordered) - 1) * percentile`. */
  function Position(n: nat, p: real): real
    requires n > 0
  {
    (n - 1) as real * p
  }

  /** The rank `_percentile` looks at. */
  function Rank(n: nat, p: real): int
    requires n > 0
  {
    var index := Round(Position(n, p));
    var low := if index < 0 then 0 else index;
    if low < n - 1 then low else n - 1
  }

  function Percentile(samples: seq<real>, p: real): real {
    if samples == [] then 0.0 else Round3(Sorted(samples)[Rank(|samples|, p)])
  }

  /** `max(samples)`. */
  function Maximum(samples: seq<real>): real
    requires samples != []
  {
    if |samples| == 1 then samples[0] else
      var m := Maximum(samples[1..]);
      if samples[0] >= m then samples[0] else m
  }

  // ---------------------------------------------------------------- rounding

  /** The nearest integer, and among two equally near ones the even one: nothing else fits. */
  lemma RoundIsNearest(x: real, n: int)
    ensures n == Round(x) <==> -0.5 <= n as real - x <= 0.5 &&
                               (n as real - x == 0.5 || n as real - x == -0.5 ==> n % 2 == 0)
  {
    var f := x.Floor;
    if n < f || n > f + 1 {
      assert n as real - x < -0.5 || n as real - x > 0.5 || n as real - x == -1.0;
    }
  }

  lemma RoundIsMonotone(x: real, y: real)
    requires x <= y
    ensures Round(x) <= Round(y)
  {
    RoundIsNearest(x, Round(x));
    RoundIsNearest(y, Round(y));
  }

  lemma {:induction false} Round3IsMonotone(x: real, y: real)
    requires x <= y
    ensures Round3(x) <= Round3(y)
  {
    RoundIsMonotone(x * 1000.0, y * 1000.0);
  }

  // ---------------------------------------------------------------- sorting

  lemma {:induction false} InsertPermutes(x: real, s: seq<real>)
    ensures multiset(Insert(x, s)) == multiset{x} + multiset(s)
  {
    if s != [] && x > s[0] {
      InsertPermutes(x, s[1..]);
      assert s == [s[0]] + s[1..];
    }
  }

  lemma {:induction false} InsertBound(x: real, s: seq<real>, low: real)
    requires low <= x && forall i :: 0 <= i < |s| ==> low <= s[i]
    ensures forall i :: 0 <= i < |Insert(x, s)| ==> low <= Insert(x, s)[i]
  {
    if s != [] && x > s[0] { InsertBound(x, s[1..], low); }
  }

  lemma {:induction false} InsertAscends(x: real, s: seq<real>)
    requires Ascending(s)
    ensures Ascending(Insert(x, s))
  {
    if s != [] && x > s[0] {
      InsertAscends(x, s[1..]);
      InsertBound(x, s[1..], s[0]);
    }
  }

  lemma {:induction false} SortedSorts(s: seq<real>)
    ensures Ascending(Sorted(s)) && multiset(Sorted(s)) == multiset(s)
  {
    if s != [] {
      SortedSorts(s[1..]);
      InsertAscends(s[0], Sorted(s[1..]));
      InsertPermutes(s[0], Sorted(s[1..]));
      assert s == [s[0]] + s[1..];
    }
  }

  lemma SameHead(a: seq<real>, b: seq<real>)
    requires Ascending(a) && Ascending(b) && multiset(a) == multiset(b) && a != [] && b != []
    ensures a[0] == b[0]
  {
    assert a[0] in multiset(b) && b[0] in multiset(a);
    var i :| 0 <= i < |b| && b[i] == a[0];
    var j :| 0 <= j < |a| && a[j] == b[0];
  }

  lemma SameTail(a: seq<real>, b: seq<real>)
    requires a != [] && b != [] && a[0] == b[0] && multiset(a) == multiset(b)
    ensures multiset(a[1..]) == multiset(b[1..])
  {
    assert a == [a[0]] + a[1..] && b == [b[0]] + b[1..];
    assert multiset(a[1..]) == multiset(a) - multiset{a[0]};
    assert multiset(b[1..]) == multiset(b) - multiset{a[0]};
  }

  lemma SameSize(a: seq<real>, b: seq<real>)
    requires multiset(a) == multiset(b)
    ensures |a| == |b|
  {
    assert |multiset(a)| == |a| && |multiset(b)| == |b|;
  }

  /** There is only one ascending arrangement. */
  lemma {:induction false} OneAscendingOrder(a: seq<real>, b: seq<real>)
    requires Ascending(a) && Ascending(b) && multiset(a) == multiset(b)
    ensures a == b
  {
    SameSize(a, b);
    if a != [] {
      SameHead(a, b);
      SameTail(a, b);
      OneAscendingOrder(a[1..], b[1..]);
      assert a == [a[0]] + a[1..] && b == [b[0]] + b[1..];
    }
  }

  // ---------------------------------------------------------------- the laws

  /** The order in which samples arrive does not matter. */
  lemma PermutationInvariant(a: seq<real>, b: seq<real>, p: real)
    requires multiset(a) == multiset(b)
    ensures Percentile(a, p) == Percentile(b, p)
  {
    SortedSorts(a);
    SortedSorts(b);
    OneAscendingOrder(Sorted(a), Sorted(b));
    assert |a| == |multiset(a)| == |multiset(b)| == |b|;
  }

  lemma PositionIsMonotone(n: nat, p: real, q: real)
    requires n > 0 && p <= q
    ensures Position(n, p) <= Position(n, q)
    ensures Position(n, 0.0) == 0.0 && Position(n, 1.0) == (n - 1) as real
  {
    Products((n - 1) as real, p, q);
  }

  lemma Products(n: real, p: real, q: real)
    requires n >= 0.0 && p <= q
    ensures n * p <= n * q
  {}

  /** For a probability the clamps are idle and the rank is within 1/2 of (n-1)p. */
  lemma RankIsNear(n: nat, p: real)
    requires n > 0 && 0.0 <= p <= 1.0
    ensures 0 <= Rank(n, p) < n
    ensures Rank(n, p) == Round(Position(n, p))
    ensures -0.5 <= Rank(n, p) as real - Position(n, p) <= 0.5
  {
    PositionIsMonotone(n, 0.0, p);
    PositionIsMonotone(n, p, 1.0);
    RoundIsMonotone(0.0, Position(n, p));
    RoundIsMonotone(Position(n, p), (n - 1) as real);
    RoundIsNearest(0.0, 0);
    RoundIsNearest((n - 1) as real, n - 1);
    RoundIsNearest(Position(n, p), Round(Position(n, p)));
  }

  lemma RankIsMonotone(n: nat, p: real, q: real)
    requires n > 0 && p <= q
    ensures 0 <= Rank(n, p) <= Rank(n, q) < n
  {
    PositionIsMonotone(n, p, q);
    RoundIsMonotone(Position(n, p), Position(n, q));
  }

  lemma PercentileIsMonotone(samples: seq<real>, p: real, q: real)
    requires p <= q
    ensures Percentile(samples, p) <= Percentile(samples, q)
  {
    if samples != [] {
      SortedSorts(samples);
      RankIsMonotone(|samples|, p, q);
      Round3IsMonotone(Sorted(samples)[Rank(|samples|, p)], Sorted(samples)[Rank(|samples|, q)]);
    }
  }

  lemma {:induction false} MaximumIsGreatest(samples: seq<real>)
    requires samples != []
    ensures Maximum(samples) in samples && forall x :: x in samples ==> x <= Maximum(samples)
  {
    if |samples| > 1 {
      MaximumIsGreatest(samples[1..]);
      assert samples == [samples[0]] + samples[1..];
    }
  }

  lemma {:induction false} SortedHas(samples: seq<real>, i: nat)
    requires i < |samples|
    ensures Sorted(samples)[i] in samples
  {
    SortedSorts(samples);
    assert Sorted(samples)[i] in multiset(Sorted(samples));
  }

  /** A percentile is a rounded sample, at most the rounded maximum. */
  lemma {:induction false} PercentileIsSample(samples: seq<real>, p: real)
    requires samples != []
    ensures exists x :: x in samples && Percentile(samples, p) == Round3(x)
    ensures Percentile(samples, p) <= Round3(Maximum(samples))
  {
    RankIsMonotone(|samples|, p, p);
    SortedHas(samples, Rank(|samples|, p));
    MaximumIsGreatest(samples);
    Round3IsMonotone(Sorted(samples)[Rank(|samples|, p)], Maximum(samples));
  }

  /** The reported latencies are ordered. */
  lemma {:induction false} ReportIsOrdered(samples: seq<real>)
    requires samples != []
    ensures Percentile(samples, 0.50) <= Percentile(samples, 0.95) <= Percentile(samples, 0.99) <=
            Round3(Maximum(samples))
  {
    PercentileIsMonotone(samples, 0.50, 0.95);
    PercentileIsMonotone(samples, 0.95, 0.99);
    PercentileIsSample(samples, 0.99);
  }

  // ---------------------------------------------------------------- which sample it is

  function Count(s: seq<real>, p: real -> bool): nat {
    if s == [] then 0 else (if p(s[0]) then 1 else 0) + Count(s[1..], p)
  }

  lemma {:induction false} InsertCount(x: real, s: seq<real>, p: real -> bool)
    ensures Count(Insert(x, s), p) == Count(s, p) + if p(x) then 1 else 0
  {
    if s != [] && x > s[0] {
      InsertCount(x, s[1..], p);
      assert Insert(x, s)[1..] == Insert(x, s[1..]);
    } else {
      assert ([x] + s)[1..] == s;
    }
  }

  lemma {:induction false} SortedCount(s: seq<real>, p: real -> bool)
    ensures Count(Sorted(s), p) == Count(s, p)
  {
    if s != [] {
      SortedCount(s[1..], p);
      InsertCount(s[0], Sorted(s[1..]), p);
    }
  }

  lemma {:induction false} CountAtMost(s: seq<real>, p: real -> bool, k: nat)
    requires forall i :: k <= i < |s| ==> !p(s[i])
    ensures Count(s, p) <= k
  {
    if s != [] { CountAtMost(s[1..], p, if k == 0 then 0 else k - 1); }
  }

  lemma {:induction false} CountAtLeast(s: seq<real>, p: real -> bool, k: nat)
    requires k <= |s| && forall i :: 0 <= i < k ==> p(s[i])
    ensures Count(s, p) >= k
  {
    if k > 0 { CountAtLeast(s[1..], p, k - 1); }
  }

  lemma {:induction false} CountIsSize(s: seq<real>, p: real -> bool)
    ensures Count(s, p) == |set i: nat | i < |s| && p(s[i])|
  {
    var all := set i: nat | i < |s| && p(s[i]);
    if s == [] {
      assert all == {};
    } else {
      CountIsSize(s[1..], p);
      var tail := set i: nat | i < |s[1..]| && p(s[1..][i]);
      var shifted := all - {0};
      ShiftedSize(tail, shifted);
      assert p(s[0]) <==> 0 in all;
      if !p(s[0]) { assert shifted == all; }
    }
  }

  lemma {:induction false} ShiftedSize(a: set<nat>, b: set<nat>)
    requires forall i :: i in b <==> i >= 1 && i - 1 in a
    ensures |b| == |a|
  {
    if a != {} {
      var x :| x in a;
      assert x + 1 in b;
      ShiftedSize(a - {x}, b - {x + 1});
    }
  }

  /** x is the sample of rank k: k or fewer samples are smaller, and more than k are not greater. */
  ghost predicate OfRank(samples: seq<real>, k: nat, x: real) {
    && x in samples
    && |set i: nat | i < |samples| && samples[i] < x| <= k
    && k < |set i: nat | i < |samples| && samples[i] <= x|
  }

  lemma FewAreSmaller(samples: seq<real>, k: nat)
    requires k < |samples|
    ensures |set i: nat | i < |samples| && samples[i] < Sorted(samples)[k]| <= k
  {
    SortedSorts(samples);
    var x := Sorted(samples)[k];
    var below := (v: real) => v < x;
    CountAtMost(Sorted(samples), below, k);
    SortedCount(samples, below);
    CountIsSize(samples, below);
    assert (set i: nat | i < |samples| && below(samples[i])) == set i: nat | i < |samples| && samples[i] < x;
  }

  lemma ManyAreNotGreater(samples: seq<real>, k: nat)
    requires k < |samples|
    ensures k < |set i: nat | i < |samples| && samples[i] <= Sorted(samples)[k]|
  {
    SortedSorts(samples);
    var x := Sorted(samples)[k];
    var upTo := (v: real) => v <= x;
    CountAtLeast(Sorted(samples), upTo, k + 1);
    SortedCount(samples, upTo);
    CountIsSize(samples, upTo);
    assert (set i: nat | i < |samples| && upTo(samples[i])) == set i: nat | i < |samples| && samples[i] <= x;
  }

  lemma SortedIsOfRank(samples: seq<real>, k: nat)
    requires k < |samples|
    ensures OfRank(samples, k, Sorted(samples)[k])
  {
    SortedHas(samples, k);
    FewAreSmaller(samples, k);
    ManyAreNotGreater(samples, k);
  }

  /** n is the integer nearest to x, and the even one of two. */
  ghost predicate Nearest(n: int, x: real) {
    -0.5 <= n as real - x <= 0.5 && (n as real - x == 0.5 || n as real - x == -0.5 ==> n % 2 == 0)
  }

  /** r is a sample of the rank nearest to `position`, rounded to the nearest thousandth. */
  ghost predicate NearRank(samples: seq<real>, position: real, r: real, k: nat, x: real, m: int) {
    Nearest(k, position) && OfRank(samples, k, x) && Nearest(m, x * 1000.0) && r == m as real / 1000.0
  }

  /** For a probability p the percentile is the sample whose rank is nearest to (n-1)p, rounded to
      the nearest thousandth, ties to even in both; without samples it is zero. */
  lemma PercentileMeaning(samples: seq<real>, p: real) returns (k: nat, x: real, m: int)
    requires 0.0 <= p <= 1.0
    ensures samples == [] ==> Percentile(samples, p) == 0.0
    ensures samples != [] ==> NearRank(samples, (|samples| - 1) as real * p, Percentile(samples, p), k, x, m)
  {
    k, x, m := 0, 0.0, 0;
    if samples != [] {
      RankIsNear(|samples|, p);
      k := Rank(|samples|, p);
      x := Sorted(samples)[k];
      m := Round(x * 1000.0);
      NearestIsRound(k, Position(|samples|, p));
      NearestIsRound(m, x * 1000.0);
      SortedIsOfRank(samples, k);
    }
  }

  lemma NearestIsRound(n: int, x: real)
    ensures Nearest(n, x) <==> n == Round(x)
  {
    RoundIsNearest(x, n);
  }
}
