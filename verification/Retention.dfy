/**
  Grandfather-father-son retention: which artifacts of one directory survive.

  `RetentionPlan` is the script's loop over ordered bucket maps. `KeptFrom` states what
  the loop keeps, position by position, for any list and any limits; `Kept` states it on
  sets, where the theorems about whole histories live.
 */
module Retention {
  import opened Ordering

  type Dir = seq<string>

  /** The directories from the root down, and the file name. */
  datatype Path = Path(dir: Dir, name: string)
  datatype Artifact = Artifact(path: Path, mtime: int)

  /** The day, ISO week and month a timestamp falls in; any functions of time will do. */
  datatype Calendar = Calendar(day: int -> int, week: int -> int, month: int -> int)
  datatype Policy = Policy(daily: int, weekly: int, monthly: int)
  datatype Kind = Daily | Weekly | Monthly

  const KINDS: seq<Kind> := [Daily, Weekly, Monthly]

  function KeyOf(cal: Calendar, k: Kind, a: Artifact): int {
    match k
    case Daily => cal.day(a.mtime)
    case Weekly => cal.week(a.mtime)
    case Monthly => cal.month(a.mtime)
  }

  function LimitOf(pol: Policy, k: Kind): int {
    match k
    case Daily => pol.daily
    case Weekly => pol.weekly
    case Monthly => pol.monthly
  }

  predicate NonNegative(pol: Policy) {
    pol.daily >= 0 && pol.weekly >= 0 && pol.monthly >= 0
  }

  /** Where a Python slice `[:limit]` of a list of length n stops, before clamping to n. */
  function SliceStop(limit: int, n: nat): nat {
    if limit >= 0 then limit else if n + limit >= 0 then n + limit else 0
  }

  function Parts(p: Path): seq<string> {
    p.dir + [p.name]
  }

  /** Paths compare part by part, so a directory sorts by its own name, not by its whole path. */
  predicate PathLess(p: Path, q: Path) {
    LexBy(Parts(p), Parts(q), StringLess)
  }

  lemma PathIsStrictTotal()
    ensures StrictTotal(PathLess)
  {
    StringsAreOrdered();
    LexIsStrictTotal(StringLess);
    var lex := (a: seq<string>, b: seq<string>) => LexBy(a, b, StringLess);
    assert forall p, q :: PathLess(p, q) == lex(Parts(p), Parts(q));
    forall p: Path, q: Path | Parts(p) == Parts(q) ensures p == q {
      assert Parts(p)[..|p.dir|] == p.dir && Parts(q)[..|q.dir|] == q.dir;
    }
  }

  /** The path with the fewer parts, or with the smaller one where the two first differ. */
  lemma PathOrder(p: Path, q: Path)
    ensures PathLess(p, q) <==>
            exists n: nat :: SmallerAt(p.dir + [p.name], q.dir + [q.name], n, StringLess)
  {
    LexMeaning(p.dir + [p.name], q.dir + [q.name], StringLess);
  }

  /** The order the code induces: newest first, equal times by path. */
  predicate Newer(a: Artifact, b: Artifact) {
    a.mtime > b.mtime || (a.mtime == b.mtime && PathLess(a.path, b.path))
  }

  lemma NewerIsStrictTotal()
    ensures StrictTotal(Newer)
  {
    PathIsStrictTotal();
    forall a: Artifact, b: Artifact ensures a == b || Newer(a, b) || Newer(b, a) {
      assert a.path == b.path || PathLess(a.path, b.path) || PathLess(b.path, a.path);
    }
  }

  // ---------------------------------------------------------------- the stable sort

  /** Puts x before the first element that is not strictly newer. */
  function InsertStable(x: Artifact, s: seq<Artifact>): seq<Artifact> {
    if s == [] || x.mtime >= s[0].mtime then [x] + s else [s[0]] + InsertStable(x, s[1..])
  }

  /** `sorted(artifacts, key=mtime, reverse=True)`. */
  function NewestFirst(s: seq<Artifact>): seq<Artifact> {
    if s == [] then [] else InsertStable(s[0], NewestFirst(s[1..]))
  }

  function AtTime(s: seq<Artifact>, t: int): seq<Artifact> {
    if s == [] then [] else (if s[0].mtime == t then [s[0]] else []) + AtTime(s[1..], t)
  }

  ghost predicate Descending(s: seq<Artifact>) {
    forall i, j :: 0 <= i < j < |s| ==> s[i].mtime >= s[j].mtime
  }

  lemma {:induction false} InsertStablePermutes(x: Artifact, s: seq<Artifact>)
    ensures multiset(InsertStable(x, s)) == multiset{x} + multiset(s)
  {
    if s != [] {
      assert s == [s[0]] + s[1..];
      if x.mtime < s[0].mtime {
        InsertStablePermutes(x, s[1..]);
      }
    }
  }

  lemma {:induction false} InsertStableDescends(x: Artifact, s: seq<Artifact>)
    requires Descending(s)
    ensures Descending(InsertStable(x, s))
  {
    if s != [] && x.mtime < s[0].mtime {
      InsertStableDescends(x, s[1..]);
      InsertStablePermutes(x, s[1..]);
      var r := InsertStable(x, s[1..]);
      forall j | 0 <= j < |r| ensures s[0].mtime >= r[j].mtime {
        assert r[j] in multiset(r);
        assert r[j] == x || r[j] in s[1..];
      }
    }
  }

  lemma AtTimeCons(x: Artifact, s: seq<Artifact>, t: int)
    ensures AtTime([x] + s, t) == (if x.mtime == t then [x] else []) + AtTime(s, t)
  {
    assert ([x] + s)[1..] == s;
  }

  lemma {:induction false} InsertStableKeepsTies(x: Artifact, s: seq<Artifact>, t: int)
    ensures AtTime(InsertStable(x, s), t) == AtTime([x] + s, t)
  {
    AtTimeCons(x, s, t);
    if s != [] && x.mtime < s[0].mtime {
      InsertStableKeepsTies(x, s[1..], t);
      AtTimeCons(x, s[1..], t);
      AtTimeCons(s[0], InsertStable(x, s[1..]), t);
      if x.mtime == t {
        assert AtTime(s, t) == AtTime(s[1..], t);
      }
    }
  }

  lemma {:induction false} NewestFirstDescends(s: seq<Artifact>)
    ensures Descending(NewestFirst(s))
    ensures multiset(NewestFirst(s)) == multiset(s)
  {
    if s != [] {
      NewestFirstDescends(s[1..]);
      InsertStableDescends(s[0], NewestFirst(s[1..]));
      InsertStablePermutes(s[0], NewestFirst(s[1..]));
      assert s == [s[0]] + s[1..];
    }
  }

  lemma {:induction false} NewestFirstKeepsTies(s: seq<Artifact>, t: int)
    ensures AtTime(NewestFirst(s), t) == AtTime(s, t)
  {
    if s != [] {
      NewestFirstKeepsTies(s[1..], t);
      InsertStableKeepsTies(s[0], NewestFirst(s[1..]), t);
      AtTimeCons(s[0], NewestFirst(s[1..]), t);
    }
  }

  /** The sort is a descending, stable permutation: equal times keep their input order. */
  lemma NewestFirstSorts(s: seq<Artifact>, t: int)
    ensures Descending(NewestFirst(s))
    ensures multiset(NewestFirst(s)) == multiset(s)
    ensures AtTime(NewestFirst(s), t) == AtTime(s, t)
  {
    NewestFirstDescends(s);
    NewestFirstKeepsTies(s, t);
  }

  ghost predicate ByPath(s: seq<Artifact>) {
    forall i, j :: 0 <= i < j < |s| ==> PathLess(s[i].path, s[j].path)
  }

  lemma {:induction false} InsertStableIsStrict(x: Artifact, s: seq<Artifact>)
    requires Ascending(s, Newer) && forall y :: y in s ==> PathLess(x.path, y.path)
    ensures Ascending(InsertStable(x, s), Newer)
    ensures forall y :: y in InsertStable(x, s) <==> y == x || y in s
  {
    NewerIsStrictTotal();
    if s != [] {
      assert s == [s[0]] + s[1..];
      if x.mtime >= s[0].mtime {
        assert Newer(x, s[0]);
      } else {
        InsertStableIsStrict(x, s[1..]);
        var r := InsertStable(x, s[1..]);
        forall j | 0 <= j < |r| ensures Newer(s[0], r[j]) {
          assert r[j] in r;
          if r[j] != x { var m :| 0 <= m < |s[1..]| && s[1..][m] == r[j]; }
        }
      }
    }
  }

  /** Path-sorted input, as `main` builds it, comes out strictly ordered by (mtime, path). */
  lemma {:induction false} NewestFirstIsStrict(s: seq<Artifact>)
    requires ByPath(s)
    ensures Ascending(NewestFirst(s), Newer)
    ensures forall a :: a in NewestFirst(s) <==> a in s
  {
    if s != [] {
      NewestFirstIsStrict(s[1..]);
      InsertStableIsStrict(s[0], NewestFirst(s[1..]));
      assert s == [s[0]] + s[1..];
    }
  }

  // ---------------------------------------------------------------- the bucket loop

  datatype Entry = Entry(key: int, artifact: Artifact)

  /** An insertion-ordered dict, as the list of its items. */
  function Keys(b: seq<Entry>): set<int> {
    set e | e in b :: e.key
  }

  function Artifacts(b: seq<Entry>): set<Artifact> {
    set e | e in b :: e.artifact
  }

  function SetDefault(b: seq<Entry>, key: int, a: Artifact): seq<Entry> {
    if key in Keys(b) then b else b + [Entry(key, a)]
  }

  function Slice(b: seq<Entry>, limit: int): seq<Entry> {
    if SliceStop(limit, |b|) <= |b| then b[..SliceStop(limit, |b|)] else b
  }

  /** The bucket dict of one kind after the first n artifacts of `ord`. */
  function Bucket(cal: Calendar, k: Kind, ord: seq<Artifact>, n: nat): seq<Entry>
    requires n <= |ord|
  {
    if n == 0 then [] else
      SetDefault(Bucket(cal, k, ord, n - 1), KeyOf(cal, k, ord[n - 1]), ord[n - 1])
  }

  /** Buckets of kind k already represented before position i. */
  ghost function KeysBefore(cal: Calendar, k: Kind, ord: seq<Artifact>, i: nat): set<int>
    requires i <= |ord|
  {
    set j | 0 <= j < i :: KeyOf(cal, k, ord[j])
  }

  ghost predicate Fresh(cal: Calendar, k: Kind, ord: seq<Artifact>, i: nat)
    requires i < |ord|
  {
    KeyOf(cal, k, ord[i]) !in KeysBefore(cal, k, ord, i)
  }

  ghost predicate KeptByKind(cal: Calendar, pol: Policy, k: Kind, ord: seq<Artifact>, i: nat)
    requires i < |ord|
  {
    && Fresh(cal, k, ord, i)
    && |KeysBefore(cal, k, ord, i)| < SliceStop(LimitOf(pol, k), |KeysBefore(cal, k, ord, |ord|)|)
  }

  ghost function KeptByKindSet(cal: Calendar, pol: Policy, k: Kind, ord: seq<Artifact>): set<Artifact> {
    set i | 0 <= i < |ord| && KeptByKind(cal, pol, k, ord, i) :: ord[i]
  }

  /** The meaning of the loop: the head, and the first of its bucket in the leading buckets. */
  ghost function KeptFrom(cal: Calendar, pol: Policy, ord: seq<Artifact>): set<Artifact> {
    (if ord == [] then {} else {ord[0]}) + KeptByKindSet(cal, pol, Daily, ord) +
    KeptByKindSet(cal, pol, Weekly, ord) + KeptByKindSet(cal, pol, Monthly, ord)
  }

  /** The i-th artifact is the first of its bucket, and p buckets were opened before it. */
  ghost predicate Opens(cal: Calendar, k: Kind, ord: seq<Artifact>, i: nat, p: nat) {
    i < |ord| && Fresh(cal, k, ord, i) && |KeysBefore(cal, k, ord, i)| == p
  }

  lemma SetDefaultKeys(b: seq<Entry>, key: int, a: Artifact, keys: set<int>)
    requires Keys(b) == keys && |b| == |keys|
    ensures Keys(SetDefault(b, key, a)) == keys + {key}
    ensures |SetDefault(b, key, a)| == |keys + {key}|
  {
    assert key in keys ==> keys + {key} == keys;
    var r := SetDefault(b, key, a);
    if key !in Keys(b) {
      assert r[|b|] == Entry(key, a);
      forall c | c in Keys(b) ensures c in Keys(r) {
        var e :| e in b && e.key == c;
        assert e in r;
      }
    }
  }

  lemma KeysStep(cal: Calendar, k: Kind, ord: seq<Artifact>, n: nat)
    requires 0 < n <= |ord|
    ensures KeysBefore(cal, k, ord, n) == KeysBefore(cal, k, ord, n - 1) + {KeyOf(cal, k, ord[n - 1])}
  {}

  lemma {:induction false} BucketKeys(cal: Calendar, k: Kind, ord: seq<Artifact>, n: nat)
    requires n <= |ord|
    ensures Keys(Bucket(cal, k, ord, n)) == KeysBefore(cal, k, ord, n)
    ensures |Bucket(cal, k, ord, n)| == |KeysBefore(cal, k, ord, n)|
  {
    if n == 0 {
      assert KeysBefore(cal, k, ord, 0) == {};
    } else {
      var front, key := Bucket(cal, k, ord, n - 1), KeyOf(cal, k, ord[n - 1]);
      BucketKeys(cal, k, ord, n - 1);
      KeysStep(cal, k, ord, n);
      SetDefaultKeys(front, key, ord[n - 1], KeysBefore(cal, k, ord, n - 1));
    }
  }

  ghost predicate Opened(cal: Calendar, k: Kind, ord: seq<Artifact>, p: nat, n: nat) {
    exists i: nat :: i < n && Opens(cal, k, ord, i, p)
  }

  /** Bucket values, in order, are the first artifacts of the distinct keys, in order. */
  lemma {:induction false} BucketMeaning(cal: Calendar, k: Kind, ord: seq<Artifact>, n: nat)
    requires n <= |ord|
    ensures forall i: nat, p: nat :: i < n && Opens(cal, k, ord, i, p) ==>
              p < |Bucket(cal, k, ord, n)| && Bucket(cal, k, ord, n)[p].artifact == ord[i]
    ensures forall p: nat :: p < |Bucket(cal, k, ord, n)| ==> Opened(cal, k, ord, p, n)
  {
    if n > 0 {
      BucketMeaning(cal, k, ord, n - 1);
      BucketKeys(cal, k, ord, n - 1);
      var b, front := Bucket(cal, k, ord, n), Bucket(cal, k, ord, n - 1);
      forall p: nat | p < |b| ensures Opened(cal, k, ord, p, n) {
        if p < |front| {
          assert Opened(cal, k, ord, p, n - 1);
        } else {
          assert Opens(cal, k, ord, n - 1, p);
        }
      }
    }
  }

  lemma SliceMeaning(cal: Calendar, pol: Policy, k: Kind, ord: seq<Artifact>)
    ensures Artifacts(Slice(Bucket(cal, k, ord, |ord|), LimitOf(pol, k))) == KeptByKindSet(cal, pol, k, ord)
  {
    BucketMeaning(cal, k, ord, |ord|);
    BucketKeys(cal, k, ord, |ord|);
    var b := Bucket(cal, k, ord, |ord|);
    var s := Slice(b, LimitOf(pol, k));
    forall a | a in Artifacts(s) ensures a in KeptByKindSet(cal, pol, k, ord) {
      var p :| 0 <= p < |s| && s[p].artifact == a;
      assert Opened(cal, k, ord, p, |ord|);
      var i: nat :| i < |ord| && Opens(cal, k, ord, i, p);
      assert KeptByKind(cal, pol, k, ord, i);
    }
    forall i | 0 <= i < |ord| && KeptByKind(cal, pol, k, ord, i) ensures ord[i] in Artifacts(s) {
      var p := |KeysBefore(cal, k, ord, i)|;
      assert Opens(cal, k, ord, i, p);
      assert s[p] in s;
    }
  }

  /** What the first m kinds keep. */
  ghost function KeptByFirst(cal: Calendar, pol: Policy, ord: seq<Artifact>, m: nat): set<Artifact>
    requires m <= |KINDS|
  {
    if m == 0 then {} else KeptByFirst(cal, pol, ord, m - 1) + KeptByKindSet(cal, pol, KINDS[m - 1], ord)
  }

  lemma KindsAreAll(cal: Calendar, pol: Policy, ord: seq<Artifact>)
    ensures KeptFrom(cal, pol, ord) ==
            KeptByFirst(cal, pol, ord, |KINDS|) + if ord == [] then {} else {ord[0]}
  {
    assert KeptByFirst(cal, pol, ord, 1) == KeptByKindSet(cal, pol, Daily, ord);
    assert KeptByFirst(cal, pol, ord, 2) == KeptByFirst(cal, pol, ord, 1) + KeptByKindSet(cal, pol, Weekly, ord);
    assert KeptByFirst(cal, pol, ord, 3) == KeptByFirst(cal, pol, ord, 2) + KeptByKindSet(cal, pol, Monthly, ord);
  }

  function Rank(k: Kind): nat {
    match k case Daily => 0 case Weekly => 1 case Monthly => 2
  }

  ghost function Elements(s: seq<Artifact>): set<Artifact> {
    set a | a in s
  }

  lemma SameElements(s: seq<Artifact>)
    ensures Elements(NewestFirst(s)) == Elements(s)
  {
    NewestFirstSorts(s, 0);
    assert forall a :: a in s <==> a in multiset(s);
    assert forall a :: a in NewestFirst(s) <==> a in multiset(NewestFirst(s));
  }

  /** One artifact offered to every kind's dict. */
  method SetDefaults(before: map<Kind, seq<Entry>>, cal: Calendar, artifact: Artifact)
    returns (buckets: map<Kind, seq<Entry>>)
    requires forall k: Kind :: k in before
    ensures forall k: Kind :: k in buckets &&
              buckets[k] == SetDefault(before[k], KeyOf(cal, k, artifact), artifact)
  {
    buckets := before;
    for m := 0 to |KINDS|
      invariant forall k: Kind :: k in buckets
      invariant forall k: Kind :: Rank(k) >= m ==> buckets[k] == before[k]
      invariant forall k: Kind :: Rank(k) < m ==>
                  buckets[k] == SetDefault(before[k], KeyOf(cal, k, artifact), artifact)
    {
      var kind := KINDS[m];
      buckets := buckets[kind := SetDefault(buckets[kind], KeyOf(cal, kind, artifact), artifact)];
    }
  }

  /** The pass over the ordered artifacts: every kind's dict gets `setdefault(key, artifact)`. */
  method FillBuckets(ordered: seq<Artifact>, cal: Calendar) returns (buckets: map<Kind, seq<Entry>>)
    ensures forall k: Kind :: k in buckets && buckets[k] == Bucket(cal, k, ordered, |ordered|)
  {
    buckets := map[Daily := [], Weekly := [], Monthly := []];
    forall k: Kind ensures k in buckets && buckets[k] == [] {
      match k case Daily => case Weekly => case Monthly =>
    }
    for n := 0 to |ordered|
      invariant forall k: Kind :: k in buckets && buckets[k] == Bucket(cal, k, ordered, n)
    {
      var artifact := ordered[n];
      buckets := SetDefaults(buckets, cal, artifact);
    }
  }

  lemma KeptFromIsSubset(cal: Calendar, pol: Policy, ord: seq<Artifact>)
    ensures KeptFrom(cal, pol, ord) <= Elements(ord)
  {}

  /** The script's function: fill the buckets, keep a slice of each and the newest. */
  method RetentionPlan(artifacts: seq<Artifact>, cal: Calendar, pol: Policy)
    returns (keep: set<Artifact>, expired: set<Artifact>)
    ensures keep == KeptFrom(cal, pol, NewestFirst(artifacts))
    ensures keep <= Elements(artifacts)
    ensures expired == Elements(artifacts) - keep
  {
    var ordered := NewestFirst(artifacts);
    keep := {};
    var buckets := FillBuckets(ordered, cal);
    for m := 0 to |KINDS|
      invariant keep == KeptByFirst(cal, pol, ordered, m)
    {
      SliceMeaning(cal, pol, KINDS[m], ordered);
      keep := keep + Artifacts(Slice(buckets[KINDS[m]], LimitOf(pol, KINDS[m])));
    }
    KindsAreAll(cal, pol, ordered);
    if ordered != [] {
      keep := keep + {ordered[0]};
    }
    SameElements(artifacts);
    KeptFromIsSubset(cal, pol, ordered);
    expired := (set a | a in ordered) - keep;
  }
}
