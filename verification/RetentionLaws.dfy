/**
  What retention means on sets of artifacts, and the laws it obeys over whole histories:
  pruning as you go, pruning once at the end, and pruning after an interrupted deletion
  leave the same artifacts.
 */
module RetentionLaws {
  import opened Ordering
  import opened Retention

  /** Buckets of kind k with a representative newer than a. */
  ghost function NewerKeys(cal: Calendar, k: Kind, A: set<Artifact>, a: Artifact): set<int> {
    set b | b in A && Newer(b, a) :: KeyOf(cal, k, b)
  }

  ghost function AllKeys(cal: Calendar, k: Kind, A: set<Artifact>): set<int> {
    set b | b in A :: KeyOf(cal, k, b)
  }

  /** a is the newest of its bucket, and fewer buckets than the limit allows come before it. */
  ghost predicate Chosen(cal: Calendar, pol: Policy, k: Kind, A: set<Artifact>, a: Artifact) {
    && KeyOf(cal, k, a) !in NewerKeys(cal, k, A, a)
    && |NewerKeys(cal, k, A, a)| < SliceStop(LimitOf(pol, k), |AllKeys(cal, k, A)|)
  }

  ghost predicate Newest(A: set<Artifact>, a: Artifact) {
    forall b :: b in A ==> b == a || Newer(a, b)
  }

  ghost predicate Keeps(cal: Calendar, pol: Policy, A: set<Artifact>, a: Artifact) {
    Newest(A, a) || exists k :: Chosen(cal, pol, k, A, a)
  }

  ghost function Kept(cal: Calendar, pol: Policy, A: set<Artifact>): set<Artifact> {
    set a | a in A && Keeps(cal, pol, A, a)
  }

  // ------------------------------------------------ the list form and the set form agree

  lemma PositionKeys(cal: Calendar, k: Kind, ord: seq<Artifact>, i: nat)
    requires Ascending(ord, Newer) && i <= |ord|
    ensures i < |ord| ==> KeysBefore(cal, k, ord, i) == NewerKeys(cal, k, Elements(ord), ord[i])
    ensures i == |ord| ==> KeysBefore(cal, k, ord, i) == AllKeys(cal, k, Elements(ord))
  {
    NewerIsStrictTotal();
    if i < |ord| {
      forall b | b in Elements(ord) && Newer(b, ord[i]) ensures exists j :: 0 <= j < i && ord[j] == b {
        var j :| 0 <= j < |ord| && ord[j] == b;
        assert j < i;
      }
    }
  }

  lemma KindOnSets(cal: Calendar, pol: Policy, k: Kind, ord: seq<Artifact>)
    requires Ascending(ord, Newer)
    ensures forall a :: a in KeptByKindSet(cal, pol, k, ord) <==>
              a in Elements(ord) && Chosen(cal, pol, k, Elements(ord), a)
  {
    PositionKeys(cal, k, ord, |ord|);
    forall i | 0 <= i < |ord|
      ensures KeptByKind(cal, pol, k, ord, i) <==> Chosen(cal, pol, k, Elements(ord), ord[i])
    {
      PositionKeys(cal, k, ord, i);
    }
    forall a | a in Elements(ord) && Chosen(cal, pol, k, Elements(ord), a)
      ensures a in KeptByKindSet(cal, pol, k, ord)
    {
      var i :| 0 <= i < |ord| && ord[i] == a;
      assert KeptByKind(cal, pol, k, ord, i);
    }
  }

  lemma HeadIsNewest(ord: seq<Artifact>)
    requires Ascending(ord, Newer)
    ensures forall a :: a in ord ==> (Newest(Elements(ord), a) <==> a == ord[0])
  {
    NewerIsStrictTotal();
    forall a | a in ord ensures Newest(Elements(ord), a) <==> a == ord[0] {
      assert ord[0] in Elements(ord);
    }
  }

  /** On the path-sorted list that `main` builds, the loop keeps exactly `Kept` of the set. */
  lemma {:induction false} PlanOnSets(cal: Calendar, pol: Policy, artifacts: seq<Artifact>)
    requires ByPath(artifacts)
    ensures KeptFrom(cal, pol, NewestFirst(artifacts)) == Kept(cal, pol, Elements(artifacts))
  {
    NewestFirstIsStrict(artifacts);
    NewerIsStrictTotal();
    var ord := NewestFirst(artifacts);
    var A := Elements(artifacts);
    assert Elements(ord) == A;
    KindOnSets(cal, pol, Daily, ord);
    KindOnSets(cal, pol, Weekly, ord);
    KindOnSets(cal, pol, Monthly, ord);
    HeadIsNewest(ord);
    forall a | a in A ensures a in KeptFrom(cal, pol, ord) <==> Keeps(cal, pol, A, a) {
      if exists k :: Chosen(cal, pol, k, A, a) {
        var k :| Chosen(cal, pol, k, A, a);
        assert k == Daily || k == Weekly || k == Monthly;
      }
    }
  }

  /** No newer artifact has the key of a, and fewer than `limit` keys have one; a negative limit
      counts down from the number of all keys. */
  ghost predicate Leads(A: set<Artifact>, a: Artifact, key: int -> int, limit: int) {
    var ahead := set b | b in A && Newer(b, a) :: key(b.mtime);
    key(a.mtime) !in ahead &&
    |ahead| < if limit >= 0 then limit else |set b | b in A :: key(b.mtime)| + limit
  }

  /** What is kept, policy field by policy field. */
  lemma KeptMeaning(cal: Calendar, pol: Policy, A: set<Artifact>, a: Artifact)
    ensures a in Kept(cal, pol, A) <==>
            a in A && (Newest(A, a) || Leads(A, a, cal.day, pol.daily) || Leads(A, a, cal.week, pol.weekly) ||
                       Leads(A, a, cal.month, pol.monthly))
  {
    ChosenLeads(cal, pol, Daily, A, a, cal.day, pol.daily);
    ChosenLeads(cal, pol, Weekly, A, a, cal.week, pol.weekly);
    ChosenLeads(cal, pol, Monthly, A, a, cal.month, pol.monthly);
    if exists k :: Chosen(cal, pol, k, A, a) {
      var k :| Chosen(cal, pol, k, A, a);
      assert k == Daily || k == Weekly || k == Monthly;
    }
  }

  lemma ChosenLeads(cal: Calendar, pol: Policy, k: Kind, A: set<Artifact>, a: Artifact, key: int -> int, limit: int)
    requires forall b :: KeyOf(cal, k, b) == key(b.mtime)
    requires LimitOf(pol, k) == limit
    ensures Chosen(cal, pol, k, A, a) <==> Leads(A, a, key, limit)
  {
    assert NewerKeys(cal, k, A, a) == set b | b in A && Newer(b, a) :: key(b.mtime);
    assert AllKeys(cal, k, A) == set b | b in A :: key(b.mtime);
  }

  /** What the loop keeps of the path-sorted list: the daily limit counts days, the weekly limit
      weeks and the monthly limit months. */
  lemma PlanMeaning(cal: Calendar, pol: Policy, artifacts: seq<Artifact>, a: Artifact)
    requires ByPath(artifacts)
    ensures var A := set b | b in artifacts;
            a in KeptFrom(cal, pol, NewestFirst(artifacts)) <==>
            a in A && (Newest(A, a) || Leads(A, a, cal.day, pol.daily) || Leads(A, a, cal.week, pol.weekly) ||
                       Leads(A, a, cal.month, pol.monthly))
  {
    PlanOnSets(cal, pol, artifacts);
    KeptMeaning(cal, pol, Elements(artifacts), a);
  }

  // ---------------------------------------------------------------- path independence

  lemma HasNewest(A: set<Artifact>) returns (m: Artifact)
    requires A != {}
    ensures m in A && Newest(A, m)
  {
    NewerIsStrictTotal();
    m :| m in A;
    var seen := {m};
    while A - seen != {}
      invariant m in seen && seen <= A && Newest(seen, m)
      decreases A - seen
    {
      var x :| x in A - seen;
      seen := seen + {x};
      if Newer(x, m) { m := x; }
    }
    assert forall x :: x in A ==> x in A - seen || x in seen;
    assert seen == A;
  }

  lemma SmallerSet<T>(a: set<T>, b: set<T>)
    requires a <= b
    ensures |a| <= |b|
  {
    if a != {} {
      var x :| x in a;
      SmallerSet(a - {x}, b - {x});
    }
  }

  /** What survives among many survives among fewer. */
  lemma Heritage(cal: Calendar, pol: Policy, S: set<Artifact>, D: set<Artifact>, a: Artifact)
    requires NonNegative(pol) && S <= D && a in S && a in Kept(cal, pol, D)
    ensures a in Kept(cal, pol, S)
  {
    if !Newest(D, a) {
      var k :| Chosen(cal, pol, k, D, a);
      assert NewerKeys(cal, k, S, a) <= NewerKeys(cal, k, D, a);
      SmallerSet(NewerKeys(cal, k, S, a), NewerKeys(cal, k, D, a));
      assert Chosen(cal, pol, k, S, a);
    }
  }

  /** No bucket ahead of a chosen artifact disappears when only expired artifacts do. */
  lemma SameBucketsAhead(cal: Calendar, pol: Policy, k: Kind, S: set<Artifact>, D: set<Artifact>, a: Artifact)
    requires NonNegative(pol) && Kept(cal, pol, D) <= S <= D
    requires |NewerKeys(cal, k, S, a)| < LimitOf(pol, k)
    ensures NewerKeys(cal, k, D, a) == NewerKeys(cal, k, S, a)
  {
    NewerIsStrictTotal();
    var lost := set b | b in D && Newer(b, a) && KeyOf(cal, k, b) !in NewerKeys(cal, k, S, a);
    if lost != {} {
      // The newest lost artifact would itself be chosen among D, hence not lost.
      var b := HasNewest(lost);
      assert NewerKeys(cal, k, D, b) <= NewerKeys(cal, k, S, a) by {
        forall c | c in D && Newer(c, b) ensures KeyOf(cal, k, c) in NewerKeys(cal, k, S, a) {
          assert c !in lost;
        }
      }
      SmallerSet(NewerKeys(cal, k, D, b), NewerKeys(cal, k, S, a));
      assert Chosen(cal, pol, k, D, b);
    }
    forall b | b in D && Newer(b, a) ensures KeyOf(cal, k, b) in NewerKeys(cal, k, S, a) {
      assert b !in lost;
    }
  }

  /** Deleting any part of what has expired changes nothing about what is kept. */
  lemma Outcast(cal: Calendar, pol: Policy, S: set<Artifact>, D: set<Artifact>)
    requires NonNegative(pol) && Kept(cal, pol, D) <= S <= D
    ensures Kept(cal, pol, S) == Kept(cal, pol, D)
  {
    NewerIsStrictTotal();
    forall a | a in Kept(cal, pol, D) ensures a in Kept(cal, pol, S) {
      Heritage(cal, pol, S, D, a);
    }
    forall a | a in Kept(cal, pol, S) ensures a in Kept(cal, pol, D) {
      if Newest(S, a) {
        var m := HasNewest(D);
        assert m in Kept(cal, pol, D);
        assert m == a;
      } else {
        var k :| Chosen(cal, pol, k, S, a);
        SameBucketsAhead(cal, pol, k, S, D, a);
        assert Chosen(cal, pol, k, D, a);
      }
    }
  }

  /** Pruning before new artifacts arrive makes no difference after the next pruning. */
  lemma PathIndependence(cal: Calendar, pol: Policy, A: set<Artifact>, B: set<Artifact>)
    requires NonNegative(pol)
    ensures Kept(cal, pol, Kept(cal, pol, A) + B) == Kept(cal, pol, A + B)
  {
    forall a | a in Kept(cal, pol, A + B) ensures a in Kept(cal, pol, A) + B {
      if a in A { Heritage(cal, pol, A, A + B, a); }
    }
    Outcast(cal, pol, Kept(cal, pol, A) + B, A + B);
  }

  // ---------------------------------------------------------------- bounds and monotonicity

  lemma GrowsWithLimits(cal: Calendar, pol: Policy, wider: Policy, A: set<Artifact>)
    requires NonNegative(pol)
    requires pol.daily <= wider.daily && pol.weekly <= wider.weekly && pol.monthly <= wider.monthly
    ensures Kept(cal, pol, A) <= Kept(cal, wider, A)
  {
    forall a | a in Kept(cal, pol, A) ensures a in Kept(cal, wider, A) {
      if !Newest(A, a) {
        var k :| Chosen(cal, pol, k, A, a);
        assert Chosen(cal, wider, k, A, a);
      }
    }
  }

  ghost function ChosenBy(cal: Calendar, pol: Policy, k: Kind, A: set<Artifact>): set<Artifact> {
    set a | a in A && Chosen(cal, pol, k, A, a)
  }

  /** Choosing k+1 artifacts would put k buckets ahead of the oldest of them. */
  lemma {:induction false} ChosenAtMost(cal: Calendar, k: Kind, A: set<Artifact>, C: set<Artifact>, n: nat)
    requires C <= A
    requires forall a :: a in C ==> KeyOf(cal, k, a) !in NewerKeys(cal, k, A, a) && |NewerKeys(cal, k, A, a)| < n
    ensures |C| <= n
  {
    NewerIsStrictTotal();
    if C != {} {
      var m := HasOldest(C);
      var rest := C - {m};
      forall a | a in rest ensures |NewerKeys(cal, k, A, a)| < n - 1 {
        var ahead := NewerKeys(cal, k, A, a) + {KeyOf(cal, k, a)};
        assert ahead <= NewerKeys(cal, k, A, m);
        SmallerSet(ahead, NewerKeys(cal, k, A, m));
      }
      ChosenAtMost(cal, k, A, rest, n - 1);
    }
  }

  lemma HasOldest(A: set<Artifact>) returns (m: Artifact)
    requires A != {}
    ensures m in A && forall b :: b in A ==> b == m || Newer(b, m)
  {
    NewerIsStrictTotal();
    m :| m in A;
    var seen := {m};
    while A - seen != {}
      invariant m in seen && seen <= A && forall b :: b in seen ==> b == m || Newer(b, m)
      decreases A - seen
    {
      var x :| x in A - seen;
      seen := seen + {x};
      if Newer(m, x) { m := x; }
    }
    assert forall x :: x in A ==> x in A - seen || x in seen;
    assert seen == A;
  }

  lemma NothingAllowed(cal: Calendar, pol: Policy, A: set<Artifact>, m: Artifact)
    requires pol == Policy(0, 0, 0) && m in A && Newest(A, m)
    ensures Kept(cal, pol, A) == {m}
  {
    NewerIsStrictTotal();
    assert forall k :: LimitOf(pol, k) == 0;
    assert forall k, a :: !Chosen(cal, pol, k, A, a);
  }

  lemma NewestIsChosen(cal: Calendar, pol: Policy, A: set<Artifact>, m: Artifact) returns (k: Kind)
    requires NonNegative(pol) && pol != Policy(0, 0, 0) && m in A && Newest(A, m)
    ensures Chosen(cal, pol, k, A, m)
  {
    NewerIsStrictTotal();
    k := if pol.daily > 0 then Daily else if pol.weekly > 0 then Weekly else Monthly;
    assert NewerKeys(cal, k, A, m) == {};
  }

  lemma KeptIsChosen(cal: Calendar, pol: Policy, A: set<Artifact>)
    requires NonNegative(pol) && pol != Policy(0, 0, 0)
    ensures Kept(cal, pol, A) <=
            ChosenBy(cal, pol, Daily, A) + ChosenBy(cal, pol, Weekly, A) + ChosenBy(cal, pol, Monthly, A)
  {
    forall a | a in Kept(cal, pol, A)
      ensures a in ChosenBy(cal, pol, Daily, A) + ChosenBy(cal, pol, Weekly, A) + ChosenBy(cal, pol, Monthly, A)
    {
      var k;
      if Newest(A, a) { k := NewestIsChosen(cal, pol, A, a); } else { k :| Chosen(cal, pol, k, A, a); }
      InSomeKind(cal, pol, k, A, a);
    }
  }

  lemma InSomeKind(cal: Calendar, pol: Policy, k: Kind, A: set<Artifact>, a: Artifact)
    requires a in A && Chosen(cal, pol, k, A, a)
    ensures a in ChosenBy(cal, pol, Daily, A) + ChosenBy(cal, pol, Weekly, A) + ChosenBy(cal, pol, Monthly, A)
  {
    assert a in ChosenBy(cal, pol, k, A);
    match k case Daily => case Weekly => case Monthly =>
  }

  /** A non-empty directory keeps at least one artifact and at most max(1, sum of limits). */
  lemma SizeBounds(cal: Calendar, pol: Policy, A: set<Artifact>)
    requires NonNegative(pol) && A != {}
    ensures 1 <= |Kept(cal, pol, A)|
    ensures |Kept(cal, pol, A)| <= if pol == Policy(0, 0, 0) then 1 else pol.daily + pol.weekly + pol.monthly
  {
    var m := HasNewest(A);
    assert m in Kept(cal, pol, A);
    if pol == Policy(0, 0, 0) {
      NothingAllowed(cal, pol, A, m);
    } else {
      var d, w, o := ChosenBy(cal, pol, Daily, A), ChosenBy(cal, pol, Weekly, A), ChosenBy(cal, pol, Monthly, A);
      ChosenAtMost(cal, Daily, A, d, pol.daily);
      ChosenAtMost(cal, Weekly, A, w, pol.weekly);
      ChosenAtMost(cal, Monthly, A, o, pol.monthly);
      KeptIsChosen(cal, pol, A);
      SmallerSet(Kept(cal, pol, A), d + w + o);
    }
  }

  // ---------------------------------------------------------------- why main refuses negatives

  /** Artifacts, newest first, no two of which share a day, a week or a month. */
  ghost predicate Spread(cal: Calendar, ord: seq<Artifact>) {
    && Ascending(ord, Newer)
    && forall k: Kind, i, j :: 0 <= i < j < |ord| ==> KeyOf(cal, k, ord[i]) != KeyOf(cal, k, ord[j])
  }

  /** How many of n spread-out artifacts a policy keeps. */
  function Width(pol: Policy, n: nat): (w: nat)
    ensures w <= n
  {
    var d, w, m := SliceStop(pol.daily, n), SliceStop(pol.weekly, n), SliceStop(pol.monthly, n);
    Smaller(n, Larger(1, Larger(d, Larger(w, m))))
  }

  function Smaller(a: nat, b: nat): nat { if a <= b then a else b }

  function Larger(a: nat, b: nat): nat { if a >= b then a else b }

  lemma {:induction false} SpreadKeys(cal: Calendar, k: Kind, ord: seq<Artifact>, i: nat)
    requires Spread(cal, ord) && i <= |ord|
    ensures |KeysBefore(cal, k, ord, i)| == i
    ensures i < |ord| ==> Fresh(cal, k, ord, i)
  {
    if i == 0 {
      assert KeysBefore(cal, k, ord, 0) == {};
    } else {
      SpreadKeys(cal, k, ord, i - 1);
      KeysStep(cal, k, ord, i);
    }
  }

  /** Of spread-out artifacts exactly the newest `Width` are kept. */
  lemma SpreadKept(cal: Calendar, pol: Policy, ord: seq<Artifact>)
    requires Spread(cal, ord)
    ensures Kept(cal, pol, Elements(ord)) == Elements(ord[..Width(pol, |ord|)])
  {
    HeadIsNewest(ord);
    var A, w := Elements(ord), Width(pol, |ord|);
    forall i | 0 <= i < |ord| ensures ord[i] in Kept(cal, pol, A) <==> i < w {
      SpreadPosition(cal, pol, ord, i);
    }
    NewerIsStrictTotal();
    forall a | a in A ensures a in Kept(cal, pol, A) <==> a in Elements(ord[..w]) {
      var i :| 0 <= i < |ord| && ord[i] == a;
      if a in ord[..w] { var j :| 0 <= j < w && ord[j] == a; }
      if i < w { assert ord[..w][i] == a; }
    }
    assert Elements(ord[..w]) <= A;
  }

  lemma SpreadPosition(cal: Calendar, pol: Policy, ord: seq<Artifact>, i: nat)
    requires Spread(cal, ord) && i < |ord|
    ensures ord[i] in Kept(cal, pol, Elements(ord)) <==> i < Width(pol, |ord|)
  {
    var A := Elements(ord);
    HeadIsNewest(ord);
    NewerIsStrictTotal();
    SpreadChosen(cal, pol, Daily, ord, i);
    SpreadChosen(cal, pol, Weekly, ord, i);
    SpreadChosen(cal, pol, Monthly, ord, i);
    if exists k :: Chosen(cal, pol, k, A, ord[i]) {
      var k :| Chosen(cal, pol, k, A, ord[i]);
      assert k == Daily || k == Weekly || k == Monthly;
    }
  }

  lemma SpreadChosen(cal: Calendar, pol: Policy, k: Kind, ord: seq<Artifact>, i: nat)
    requires Spread(cal, ord) && i < |ord|
    ensures Chosen(cal, pol, k, Elements(ord), ord[i]) <==> i < SliceStop(LimitOf(pol, k), |ord|)
  {
    SpreadKeys(cal, k, ord, i);
    SpreadKeys(cal, k, ord, |ord|);
    PositionKeys(cal, k, ord, i);
    PositionKeys(cal, k, ord, |ord|);
  }

  /** The smallest magnitude of a negative limit, and the largest limit that is not negative. */
  function Shortest(pol: Policy): nat
    requires !NonNegative(pol)
  {
    var d, w, m := Magnitude(pol.daily), Magnitude(pol.weekly), Magnitude(pol.monthly);
    var dw := if d == 0 || (0 < w < d) then w else d;
    if dw == 0 || (0 < m < dw) then m else dw
  }

  function Magnitude(limit: int): nat { if limit < 0 then -limit else 0 }

  function Longest(pol: Policy): nat {
    Larger(Clipped(pol.daily), Larger(Clipped(pol.weekly), Clipped(pol.monthly)))
  }

  function Clipped(limit: int): nat { if limit < 0 then 0 else limit }

  /** How many spread-out artifacts show that a policy is not idempotent. */
  function Needed(pol: Policy): nat {
    if NonNegative(pol) then 0 else 2 * Shortest(pol) + Longest(pol) + 1
  }

  lemma WidthShrinks(pol: Policy, n: nat)
    requires !NonNegative(pol) && n >= Needed(pol)
    ensures Width(pol, n) == n - Shortest(pol)
    ensures Width(pol, Width(pol, n)) < Width(pol, n)
  {
    assert Shortest(pol) >= 1;
  }

  /** With a negative limit, pruning enough spread-out artifacts a second time drops some more. */
  lemma NegativeLimitDrops(cal: Calendar, pol: Policy, ord: seq<Artifact>)
    requires !NonNegative(pol) && Spread(cal, ord) && |ord| >= Needed(pol)
    ensures Kept(cal, pol, Kept(cal, pol, Elements(ord))) < Kept(cal, pol, Elements(ord))
  {
    var w := Width(pol, |ord|);
    WidthShrinks(pol, |ord|);
    SpreadKept(cal, pol, ord);
    SpreadKept(cal, pol, ord[..w]);
    var v := Width(pol, w);
    assert ord[..w][..v] == ord[..v];
    ShorterPrefix(ord, v, w);
  }

  lemma ShorterPrefix(ord: seq<Artifact>, v: nat, w: nat)
    requires Ascending(ord, Newer) && v < w <= |ord|
    ensures Elements(ord[..v]) < Elements(ord[..w])
  {
    NewerIsStrictTotal();
    assert ord[..w][v] == ord[v] && ord[v] in Elements(ord[..w]);
    assert ord[v] !in Elements(ord[..v]);
    forall a | a in Elements(ord[..v]) ensures a in Elements(ord[..w]) {
      var j :| 0 <= j < v && ord[j] == a;
      assert ord[..w][j] == a;
    }
  }
}
