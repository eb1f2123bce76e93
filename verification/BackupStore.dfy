/**
  The backup tree: retention over every directory below a root, and histories of arrivals,
  prunings and interrupted prunings.
 */
module BackupStore {
  import opened Ordering
  import opened Retention
  import opened RetentionLaws

  predicate EndsWith(s: string, suffix: string) {
    |suffix| <= |s| && s[|s| - |suffix|..] == suffix
  }

  /** The names `rglob("*.enc")` selects. */
  predicate IsArtifact(p: Path) {
    EndsWith(p.name, ".enc")
  }

  function ManifestOf(p: Path): Path {
    Path(p.dir, p.name + ".manifest.json")
  }

  /** A manifest is never itself taken for an artifact, and belongs to one artifact only. */
  lemma ManifestsAreApart(p: Path, q: Path)
    ensures ManifestOf(p).dir == p.dir && ManifestOf(p).name == p.name + ".manifest.json"
    ensures !IsArtifact(ManifestOf(p))
    ensures ManifestOf(p) == ManifestOf(q) ==> p == q
  {
    var s := ManifestOf(p).name;
    assert s[|s| - 1] == 'n';
    assert s[|s| - 4..][3] == 'n';
    if ManifestOf(p) == ManifestOf(q) {
      assert p.name == ManifestOf(p).name[..|ManifestOf(p).name| - 14];
      assert q.name == ManifestOf(q).name[..|ManifestOf(q).name| - 14];
    }
  }

  /** A tree of regular files, as the modification time of each. */
  type Tree = map<Path, int>

  /** Files in the directory `root` and the directories below it. */
  predicate Below(root: Dir, p: Path) {
    root <= p.dir
  }

  function ArtifactsIn(files: Tree, root: Dir): set<Artifact> {
    set p | p in files && IsArtifact(p) && Below(root, p) :: Artifact(p, files[p])
  }

  ghost function InDir(A: set<Artifact>, dir: Dir): set<Artifact> {
    set a | a in A && a.path.dir == dir
  }

  /** Each directory is its own stream. */
  ghost function KeptTree(cal: Calendar, pol: Policy, A: set<Artifact>): set<Artifact> {
    set a | a in A && a in Kept(cal, pol, InDir(A, a.path.dir))
  }

  /** What the tree keeps: in each directory the newest artifact, and those that lead a day, a
      week or a month within the limit of that kind. */
  lemma TreeMeaning(cal: Calendar, pol: Policy, A: set<Artifact>, a: Artifact)
    ensures var D := set b | b in A && b.path.dir == a.path.dir;
            a in KeptTree(cal, pol, A) <==>
            a in A && (Newest(D, a) || Leads(D, a, cal.day, pol.daily) || Leads(D, a, cal.week, pol.weekly) ||
                       Leads(D, a, cal.month, pol.monthly))
  {
    KeptMeaning(cal, pol, InDir(A, a.path.dir), a);
  }

  // ---------------------------------------------------------------- histories

  lemma TreeInDir(cal: Calendar, pol: Policy, A: set<Artifact>, dir: Dir)
    ensures InDir(KeptTree(cal, pol, A), dir) == Kept(cal, pol, InDir(A, dir))
  {}

  lemma TreeHeritage(cal: Calendar, pol: Policy, S: set<Artifact>, D: set<Artifact>)
    requires NonNegative(pol) && S <= D
    ensures KeptTree(cal, pol, D) * S <= KeptTree(cal, pol, S)
  {
    forall a | a in KeptTree(cal, pol, D) && a in S ensures a in KeptTree(cal, pol, S) {
      Heritage(cal, pol, InDir(S, a.path.dir), InDir(D, a.path.dir), a);
    }
  }

  lemma TreeOutcast(cal: Calendar, pol: Policy, S: set<Artifact>, D: set<Artifact>)
    requires NonNegative(pol) && KeptTree(cal, pol, D) <= S <= D
    ensures KeptTree(cal, pol, S) == KeptTree(cal, pol, D)
  {
    forall a | a in D ensures a in KeptTree(cal, pol, S) <==> a in KeptTree(cal, pol, D) {
      var dir := a.path.dir;
      TreeInDir(cal, pol, D, dir);
      assert Kept(cal, pol, InDir(D, dir)) <= InDir(S, dir);
      Outcast(cal, pol, InDir(S, dir), InDir(D, dir));
    }
  }

  /** New artifacts appear, or a pruning deletes some of the expired ones: all of them when
      it completes, fewer when an I/O error cuts it short. */
  datatype Event = Arrive(added: set<Artifact>) | Prune | CutShort(deleted: set<Artifact>)

  ghost function Step(cal: Calendar, pol: Policy, A: set<Artifact>, e: Event): set<Artifact> {
    match e
    case Arrive(added) => A + added
    case Prune => KeptTree(cal, pol, A)
    case CutShort(deleted) => A - (deleted - KeptTree(cal, pol, A))
  }

  ghost function Run(cal: Calendar, pol: Policy, h: seq<Event>): set<Artifact> {
    if h == [] then {} else Step(cal, pol, Run(cal, pol, h[..|h| - 1]), h[|h| - 1])
  }

  ghost function Arrived(h: seq<Event>): set<Artifact> {
    if h == [] then {} else
      Arrived(h[..|h| - 1]) + if h[|h| - 1].Arrive? then h[|h| - 1].added else {}
  }

  /** At every moment of any history, what one pruning of everything would keep is still there. */
  lemma {:induction false} NothingKeptIsLost(cal: Calendar, pol: Policy, h: seq<Event>)
    requires NonNegative(pol)
    ensures KeptTree(cal, pol, Arrived(h)) <= Run(cal, pol, h) <= Arrived(h)
  {
    if h != [] {
      var before := h[..|h| - 1];
      NothingKeptIsLost(cal, pol, before);
      match h[|h| - 1]
      case Arrive(added) => TreeHeritage(cal, pol, Arrived(before), Arrived(h));
      case _ =>
        TreeOutcast(cal, pol, Run(cal, pol, before), Arrived(before));
        assert Arrived(h) == Arrived(before);
    }
  }

  /** However pruning and arrivals interleave, a final pruning leaves what pruning once would. */
  lemma HistoryIndependence(cal: Calendar, pol: Policy, h: seq<Event>)
    requires NonNegative(pol)
    ensures Run(cal, pol, h + [Prune]) == KeptTree(cal, pol, Arrived(h))
  {
    NothingKeptIsLost(cal, pol, h);
    TreeOutcast(cal, pol, Run(cal, pol, h), Arrived(h));
    assert (h + [Prune])[..|h|] == h;
  }

  /** Every directory that holds artifacts keeps one of them. */
  lemma EveryDirectoryKeepsOne(cal: Calendar, pol: Policy, A: set<Artifact>, a: Artifact)
    requires a in A
    ensures InDir(KeptTree(cal, pol, A), a.path.dir) != {}
  {
    var dir := a.path.dir;
    assert a in InDir(A, dir);
    var m := HasNewest(InDir(A, dir));
    assert m in Kept(cal, pol, InDir(A, dir));
    TreeInDir(cal, pol, A, dir);
  }

  // ---------------------------------------------------------------- grouping by directory

  /** `streams.setdefault(artifact.parent, []).append(artifact)`. */
  function AddTo(streams: map<Dir, seq<Artifact>>, a: Artifact): map<Dir, seq<Artifact>> {
    streams[a.path.dir := (if a.path.dir in streams then streams[a.path.dir] else []) + [a]]
  }

  /** The first n artifacts that lie in one directory, in order. */
  function OfDir(arts: seq<Artifact>, n: nat, dir: Dir): seq<Artifact>
    requires n <= |arts|
  {
    if n == 0 then [] else
      OfDir(arts, n - 1, dir) + if arts[n - 1].path.dir == dir then [arts[n - 1]] else []
  }

  /** Every directory met so far has its artifacts, in order. */
  ghost predicate Grouped(streams: map<Dir, seq<Artifact>>, arts: seq<Artifact>, n: nat)
    requires n <= |arts|
  {
    && (forall i :: 0 <= i < n ==> arts[i].path.dir in streams)
    && (forall dir :: dir in streams ==> streams[dir] == OfDir(arts, n, dir))
  }

  lemma {:induction false} NoneOfDir(arts: seq<Artifact>, n: nat, dir: Dir)
    requires n <= |arts| && forall i :: 0 <= i < n ==> arts[i].path.dir != dir
    ensures OfDir(arts, n, dir) == []
  {
    if n > 0 { NoneOfDir(arts, n - 1, dir); }
  }

  lemma GroupStep(streams: map<Dir, seq<Artifact>>, arts: seq<Artifact>, n: nat)
    requires n < |arts| && Grouped(streams, arts, n)
    ensures Grouped(AddTo(streams, arts[n]), arts, n + 1)
  {
    if arts[n].path.dir !in streams { NoneOfDir(arts, n, arts[n].path.dir); }
  }

  lemma {:induction false} OfDirMeaning(arts: seq<Artifact>, n: nat, dir: Dir)
    requires n <= |arts| && ByPath(arts)
    ensures ByPath(OfDir(arts, n, dir))
    ensures forall a :: a in OfDir(arts, n, dir) <==> a in arts[..n] && a.path.dir == dir
  {
    if n > 0 {
      OfDirMeaning(arts, n - 1, dir);
      assert arts[..n] == arts[..n - 1] + [arts[n - 1]];
      var front := OfDir(arts, n - 1, dir);
      forall i | 0 <= i < |front| ensures PathLess(front[i].path, arts[n - 1].path) {
        assert front[i] in front;
      }
    }
  }

  /** The streams are path-sorted, each is what the tree holds in its directory, and every
      artifact is in the stream of its directory. */
  lemma StreamsCoverTree(streams: map<Dir, seq<Artifact>>, arts: seq<Artifact>)
    requires ByPath(arts) && Grouped(streams, arts, |arts|)
    ensures forall dir :: dir in streams ==>
              ByPath(streams[dir]) && Elements(streams[dir]) == InDir(Elements(arts), dir)
    ensures forall a :: a in Elements(arts) ==> a.path.dir in streams
  {
    assert arts[..|arts|] == arts;
    forall dir | dir in streams
      ensures ByPath(streams[dir]) && Elements(streams[dir]) == InDir(Elements(arts), dir)
    {
      OfDirMeaning(arts, |arts|, dir);
    }
  }

  lemma {:induction false} SortedSize(s: seq<Path>, paths: set<Path>)
    requires Ascending(s, PathLess) && forall p :: p in s <==> p in paths
    ensures |s| == |paths|
  {
    PathIsStrictTotal();
    if s == [] {
      assert paths == {};
    } else {
      var last := s[|s| - 1];
      var front := s[..|s| - 1];
      forall p | p in front ensures p in paths - {last} {
        assert p in s;
      }
      forall p | p in paths - {last} ensures p in front {
        assert p in s;
      }
      SortedSize(front, paths - {last});
    }
  }

  // ---------------------------------------------------------------- deleting

  /** Expired paths and their manifests. */
  function Gone(paths: set<Path>): set<Path> {
    paths + set p | p in paths :: ManifestOf(p)
  }

  function ToSet(paths: seq<Path>): set<Path> {
    set p | p in paths
  }

  /** What the first n unlink calls remove: artifact, manifest, artifact, manifest, ... */
  ghost function Lost(doomed: seq<Path>, n: nat): set<Path> {
    (set i | 0 <= i < |doomed| && 2 * i < n :: doomed[i]) +
    (set i | 0 <= i < |doomed| && 2 * i + 1 < n :: ManifestOf(doomed[i]))
  }

  lemma LostStep(doomed: seq<Path>, m: nat)
    requires m < |doomed|
    ensures Lost(doomed, 2 * m + 1) == Lost(doomed, 2 * m) + {doomed[m]}
    ensures Lost(doomed, 2 * m + 2) == Lost(doomed, 2 * m + 1) + {ManifestOf(doomed[m])}
  {}

  lemma MinusBoth(files: Tree, a: set<Path>, b: set<Path>)
    ensures (files - a) - b == files - (a + b)
  {}

  lemma LostIsGone(doomed: seq<Path>, n: nat)
    ensures Lost(doomed, n) <= Gone(ToSet(doomed))
    ensures 2 * |doomed| <= n ==> Lost(doomed, n) == Gone(ToSet(doomed))
  {
    assert forall i :: 0 <= i < |doomed| ==> doomed[i] in ToSet(doomed);
    if 2 * |doomed| <= n {
      forall p | p in ToSet(doomed) ensures p in Lost(doomed, n) && ManifestOf(p) in Lost(doomed, n) {
        var i :| 0 <= i < |doomed| && doomed[i] == p;
      }
    }
  }

  function PathsOf(A: set<Artifact>): set<Path> {
    set a | a in A :: a.path
  }

  lemma ArtifactsAfterLoss(files: Tree, root: Dir, lost: set<Path>)
    ensures ArtifactsIn(files - lost, root) == set a | a in ArtifactsIn(files, root) && a.path !in lost
  {}

  /** Deleting expired artifacts with their manifests deletes no other artifact. */
  lemma DeletionSparesTheKept(files: Tree, root: Dir, expired: set<Artifact>, lost: set<Path>)
    requires expired <= ArtifactsIn(files, root) && lost <= Gone(PathsOf(expired))
    ensures ArtifactsIn(files, root) - expired <= ArtifactsIn(files - lost, root) <= ArtifactsIn(files, root)
    ensures PathsOf(expired) <= lost ==>
              ArtifactsIn(files - lost, root) == ArtifactsIn(files, root) - expired
    ensures forall p :: p in lost ==> Below(root, p)
  {
    ArtifactsAfterLoss(files, root, lost);
    forall a | a in ArtifactsIn(files, root) && a.path in lost ensures a in expired {
      if a.path !in PathsOf(expired) {
        var p :| p in PathsOf(expired) && a.path == ManifestOf(p);
        ManifestsAreApart(p, p);
      } else {
        var b :| b in expired && b.path == a.path;
        assert b == a;
      }
    }
  }

  /** `after` is `before` with the first n unlinks of the sorted paths carried out. */
  ghost predicate CutOff(before: Tree, paths: set<Path>, n: nat, after: Tree) {
    exists doomed: seq<Path> ::
      Ascending(doomed, PathLess) && ToSet(doomed) == paths && after == before - Lost(doomed, n)
  }

  lemma AfterDeletion(files: Tree, root: Dir, expired: set<Artifact>, doomed: seq<Path>, n: nat)
    requires expired <= ArtifactsIn(files, root) && ToSet(doomed) == PathsOf(expired)
    ensures var after := files - Lost(doomed, n);
      && ArtifactsIn(files, root) - expired <= ArtifactsIn(after, root) <= ArtifactsIn(files, root)
      && (forall p :: p in files && !Below(root, p) ==> p in after)
      && (2 * |doomed| <= n ==> after == files - Gone(PathsOf(expired)) &&
                                ArtifactsIn(after, root) == ArtifactsIn(files, root) - expired)
  {
    LostIsGone(doomed, n);
    DeletionSparesTheKept(files, root, expired, Lost(doomed, n));
  }

  /** After any number of unlinks only expired artifacts and their manifests are gone, and no
      manifest before its artifact. */
  lemma InThisOrder(files: Tree, root: Dir, expired: set<Artifact>, doomed: seq<Path>, n: nat)
    requires expired <= ArtifactsIn(files, root) && ToSet(doomed) == PathsOf(expired)
    requires Ascending(doomed, PathLess)
    ensures var after := files - Lost(doomed, n);
      && (forall p :: p in files && p !in after ==>
            exists a :: a in expired && (p == a.path || p == ManifestOf(a.path)))
      && (forall a :: a in expired && a.path in after ==>
            (ManifestOf(a.path) in after <==> ManifestOf(a.path) in files))
  {
    LostIsGone(doomed, n);
    forall a | a in expired && a.path !in Lost(doomed, n) ensures ManifestOf(a.path) !in Lost(doomed, n) {
      ManifestStays(expired, doomed, n, a);
    }
  }

  lemma ManifestStays(expired: set<Artifact>, doomed: seq<Path>, n: nat, a: Artifact)
    requires ToSet(doomed) == PathsOf(expired) && (forall b :: b in expired ==> IsArtifact(b.path))
    requires a in expired && a.path !in Lost(doomed, n)
    ensures ManifestOf(a.path) !in Lost(doomed, n)
  {
    forall i | 0 <= i < |doomed| ensures doomed[i] != ManifestOf(a.path) {
      assert doomed[i] in ToSet(doomed);
      ManifestsAreApart(a.path, a.path);
    }
    forall i | 0 <= i < |doomed| && ManifestOf(doomed[i]) == ManifestOf(a.path) ensures 2 * i >= n {
      ManifestsAreApart(doomed[i], a.path);
    }
  }

  // ---------------------------------------------------------------- pruning a tree

  ghost function ExpiredIn(cal: Calendar, pol: Policy, files: Tree, root: Dir): set<Artifact> {
    ArtifactsIn(files, root) - KeptTree(cal, pol, ArtifactsIn(files, root))
  }

  /** The tree after an undisturbed deletion. */
  ghost function Pruned(cal: Calendar, pol: Policy, files: Tree, root: Dir): Tree {
    files - Gone(PathsOf(ExpiredIn(cal, pol, files, root)))
  }

  lemma PrunedKeeps(cal: Calendar, pol: Policy, files: Tree, root: Dir)
    ensures ArtifactsIn(Pruned(cal, pol, files, root), root) == KeptTree(cal, pol, ArtifactsIn(files, root))
  {
    var expired := ExpiredIn(cal, pol, files, root);
    DeletionSparesTheKept(files, root, expired, Gone(PathsOf(expired)));
  }

  /** Pruning twice is pruning once exactly when the second planning expires nothing. */
  lemma PruningTwice(cal: Calendar, pol: Policy, files: Tree, root: Dir)
    ensures var kept := KeptTree(cal, pol, ArtifactsIn(files, root));
            Pruned(cal, pol, Pruned(cal, pol, files, root), root) == Pruned(cal, pol, files, root) <==>
            KeptTree(cal, pol, kept) == kept
  {
    var once := Pruned(cal, pol, files, root);
    var kept := KeptTree(cal, pol, ArtifactsIn(files, root));
    PrunedKeeps(cal, pol, files, root);
    PrunedKeeps(cal, pol, once, root);
    if KeptTree(cal, pol, kept) == kept {
      assert ExpiredIn(cal, pol, once, root) == {};
      assert Gone({}) == {};
      assert PathsOf({}) == {};
    }
  }

  // ---------------------------------------------------------------- why main refuses negatives

  /** Instants, latest first, no two of which share a day, a week or a month. */
  ghost predicate Apart(cal: Calendar, times: seq<int>) {
    forall i, j :: 0 <= i < j < |times| ==>
      times[i] > times[j] && SharesNoBucket(cal, times[i], times[j])
  }

  ghost predicate SharesNoBucket(cal: Calendar, s: int, t: int) {
    cal.day(s) != cal.day(t) && cal.week(s) != cal.week(t) && cal.month(s) != cal.month(t)
  }

  /** From u on nothing falls into a bucket that was open at t or before. */
  ghost predicate ClosedBy(cal: Calendar, t: int, u: int) {
    t < u && forall s, v :: s <= t && u <= v ==> SharesNoBucket(cal, v, s)
  }

  ghost predicate Ends(cal: Calendar, t: int) {
    exists u :: ClosedBy(cal, t, u)
  }

  /** Time goes on: every day, week and month ends. */
  ghost predicate Advances(cal: Calendar) {
    forall t :: Ends(cal, t)
  }

  /** A calendar that goes on has as many instants apart as a policy needs. */
  lemma {:induction false} InstantsApart(cal: Calendar, n: nat) returns (times: seq<int>)
    requires Advances(cal)
    ensures |times| == n && Apart(cal, times)
  {
    times := [];
    if n > 0 {
      var rest := InstantsApart(cal, n - 1);
      if rest == [] {
        times := [0];
      } else {
        assert Ends(cal, rest[0]);
        var u :| ClosedBy(cal, rest[0], u);
        times := [u] + rest;
        forall j | 1 <= j < |times| ensures times[j] < u && SharesNoBucket(cal, u, times[j]) {}
      }
    }
  }

  /** "aaa.enc", one name for each i. */
  function NameOf(i: nat): (p: Path)
    ensures |p.name| == i + 4
  {
    Path([], seq(i, _ => 'a') + ".enc")
  }

  lemma NamesDiffer(i: nat, j: nat)
    ensures IsArtifact(NameOf(i))
    ensures NameOf(i) == NameOf(j) ==> i == j
  {}

  /** One artifact for each instant, all in one directory. */
  ghost function OneEach(times: seq<int>): seq<Artifact> {
    seq(|times|, i requires 0 <= i < |times| => Artifact(NameOf(i), times[i]))
  }

  ghost function TreeOf(times: seq<int>): Tree {
    map p | p in (set i: nat | i < |times| :: NameOf(i)) :: times[|p.name| - 4]
  }

  lemma OneEachIsSpread(cal: Calendar, times: seq<int>)
    requires Apart(cal, times)
    ensures Spread(cal, OneEach(times))
  {
    var ord := OneEach(times);
    forall k: Kind, i, j | 0 <= i < j < |ord|
      ensures Newer(ord[i], ord[j]) && KeyOf(cal, k, ord[i]) != KeyOf(cal, k, ord[j])
    {
      assert times[i] > times[j] && SharesNoBucket(cal, times[i], times[j]);
    }
  }

  lemma TreeOfHolds(times: seq<int>)
    ensures ArtifactsIn(TreeOf(times), []) == Elements(OneEach(times))
  {
    var ord := OneEach(times);
    forall a | a in Elements(ord) ensures a in ArtifactsIn(TreeOf(times), []) {
      var i: nat :| i < |ord| && ord[i] == a;
      NamesDiffer(i, i);
    }
    forall a | a in ArtifactsIn(TreeOf(times), []) ensures a in Elements(ord) {
      var i: nat :| i < |times| && a.path == NameOf(i);
      assert ord[i] == a;
    }
  }

  /** With a negative limit there is a tree that loses more by being pruned twice: one artifact
      in each of enough months. */
  lemma NegativeLimitsLose(cal: Calendar, pol: Policy, times: seq<int>)
    requires !NonNegative(pol) && Apart(cal, times) && |times| >= Needed(pol)
    ensures var once := Pruned(cal, pol, TreeOf(times), []);
            ArtifactsIn(Pruned(cal, pol, once, []), []) < ArtifactsIn(once, [])
  {
    var files := TreeOf(times);
    OneEachIsSpread(cal, times);
    TreeOfHolds(times);
    var A := ArtifactsIn(files, []);
    NegativeLimitDrops(cal, pol, OneEach(times));
    assert InDir(A, []) == A;
    assert KeptTree(cal, pol, A) == Kept(cal, pol, A);
    assert InDir(Kept(cal, pol, A), []) == Kept(cal, pol, A);
    assert KeptTree(cal, pol, Kept(cal, pol, A)) == Kept(cal, pol, Kept(cal, pol, A));
    PrunedKeeps(cal, pol, files, []);
    PrunedKeeps(cal, pol, Pruned(cal, pol, files, []), []);
  }

  /** Under a calendar with enough months, pruning is idempotent on every tree iff no limit is
      negative. */
  lemma IdempotentIffNonNegative(cal: Calendar, pol: Policy, times: seq<int>)
    requires Apart(cal, times) && |times| >= Needed(pol)
    ensures (forall files: Tree, root: Dir ::
               Pruned(cal, pol, Pruned(cal, pol, files, root), root) == Pruned(cal, pol, files, root)) <==>
            NonNegative(pol)
  {
    if NonNegative(pol) {
      forall files: Tree, root: Dir
        ensures Pruned(cal, pol, Pruned(cal, pol, files, root), root) == Pruned(cal, pol, files, root)
      {
        var A := ArtifactsIn(files, root);
        TreeOutcast(cal, pol, KeptTree(cal, pol, A), A);
        PruningTwice(cal, pol, files, root);
      }
    } else {
      NegativeLimitsLose(cal, pol, times);
    }
  }

  // ---------------------------------------------------------------- the script

  /** How `main` of the retention script ends. */
  datatype Outcome =
    | Refused                 // exit code 1 before anything is read
    | Empty                   // the root does not exist; exit code 0
    | Finished(kept: set<Artifact>, expired: set<Artifact>, removed: seq<Path>)
    | Crashed                 // an unlink raised

  /** The limits are not negative and the root lies in the approved directory. */
  predicate Admitted(pol: Policy, approved: Dir, root: Dir) {
    NonNegative(pol) && approved <= root
  }

  predicate HoldsFiles(files: Tree, root: Dir) {
    exists p :: p in files && Below(root, p)
  }

  /** A backup survives every admissible policy exactly when it is the newest of its directory. */
  lemma AlwaysKeptIffNewest(cal: Calendar, A: set<Artifact>, a: Artifact)
    requires a in A
    ensures (forall pol :: NonNegative(pol) ==> a in KeptTree(cal, pol, A)) <==> Newest(InDir(A, a.path.dir), a)
  {
    var none := Policy(0, 0, 0);
    assert NonNegative(none) && forall k :: LimitOf(none, k) == 0;
    if a in KeptTree(cal, none, A) {
      assert forall k :: !Chosen(cal, none, k, InDir(A, a.path.dir), a);
    }
  }

  /** A clock that runs behind loses the fresh backup: anything newer in the same day, week
      and month evicts it under every policy. */
  lemma NewerEvicts(cal: Calendar, pol: Policy, A: set<Artifact>, a: Artifact, b: Artifact)
    requires a in A && b in A && a.path.dir == b.path.dir && Newer(b, a)
    requires forall k :: KeyOf(cal, k, a) == KeyOf(cal, k, b)
    ensures a !in KeptTree(cal, pol, A)
  {
    NewerIsStrictTotal();
    assert !Newest(InDir(A, a.path.dir), a) by { assert b in InDir(A, a.path.dir); }
    forall k | true ensures !Chosen(cal, pol, k, InDir(A, a.path.dir), a) {
      assert b in InDir(A, a.path.dir);
      assert KeyOf(cal, k, b) in NewerKeys(cal, k, InDir(A, a.path.dir), a);
    }
  }

  class Store {
    /** The regular files, and when each was modified. */
    var files: Tree

    constructor(initial: Tree)
      ensures files == initial
    {
      files := initial;
    }

    /** The artifacts below the root, sorted by path, with their modification times. */
    method Scan(root: Dir) returns (artifacts: seq<Artifact>)
      ensures ByPath(artifacts)
      ensures Elements(artifacts) == ArtifactsIn(files, root)
      ensures forall a :: a in artifacts <==>
                && a.path in files && a.mtime == files[a.path]
                && |a.path.name| >= 4 && a.path.name[|a.path.name| - 4..] == ".enc"
                && |root| <= |a.path.dir| && a.path.dir[..|root|] == root
    {
      var found := set p | p in files && IsArtifact(p) && Below(root, p);
      PathIsStrictTotal();
      var paths := SortSet(found, PathLess);
      var times := files;
      assert forall i :: 0 <= i < |paths| ==> paths[i] in paths;
      artifacts := seq(|paths|,
        i requires 0 <= i < |paths| && paths[i] in times => Artifact(paths[i], times[paths[i]]));
      forall a | a in ArtifactsIn(files, root) ensures a in artifacts {
        assert a.path in paths;
        var i :| 0 <= i < |paths| && paths[i] == a.path;
        assert artifacts[i] == a;
      }
      assert forall a :: a in artifacts <==> a in ArtifactsIn(files, root);
    }

    /** Retention below a root. `present` says whether something is at the root when no file is
        below it. The unlink call number `faultAt` raises, if it is reached. */
    method Retain(approved: Dir, root: Dir, present: bool, cal: Calendar, pol: Policy, apply: bool, faultAt: nat)
      returns (r: Outcome)
      modifies this
      ensures r.Refused? <==> pol.daily < 0 || pol.weekly < 0 || pol.monthly < 0 ||
                              |root| < |approved| || root[..|approved|] != approved
      ensures r.Refused? <==> !Admitted(pol, approved, root)
      ensures r.Empty? <==> Admitted(pol, approved, root) && !present && !HoldsFiles(old(files), root)
      ensures r.Crashed? <==> Admitted(pol, approved, root) && apply &&
                              faultAt < 2 * |PathsOf(ExpiredIn(cal, pol, old(files), root))|
      ensures r.Finished? ==> r.kept == KeptTree(cal, pol, ArtifactsIn(old(files), root))
      ensures r.Finished? ==> r.expired == ExpiredIn(cal, pol, old(files), root)
      ensures r.Finished? && apply ==> files == Pruned(cal, pol, old(files), root)
      ensures r.Finished? && apply ==> ArtifactsIn(files, root) == r.kept
      ensures r.Finished? && apply ==> Ascending(r.removed, PathLess) && ToSet(r.removed) == PathsOf(r.expired)
      ensures r.Finished? && !apply ==> r.removed == []
      ensures r.Crashed? ==> CutOff(old(files), PathsOf(ExpiredIn(cal, pol, old(files), root)), faultAt, files)
      ensures r.Crashed? ==>
                KeptTree(cal, pol, ArtifactsIn(old(files), root)) <= ArtifactsIn(files, root) <=
                ArtifactsIn(old(files), root)
      ensures !apply || r.Refused? || r.Empty? ==> files == old(files)
      // only expired artifacts and their manifests ever go, an artifact before its manifest
      ensures files.Keys <= old(files).Keys && forall p :: p in files ==> files[p] == old(files)[p]
      ensures forall p :: p in old(files) && p !in files ==>
                exists a :: a in ExpiredIn(cal, pol, old(files), root) && (p == a.path || p == ManifestOf(a.path))
      ensures forall a :: a in ExpiredIn(cal, pol, old(files), root) && a.path in files ==>
                (ManifestOf(a.path) in files <==> ManifestOf(a.path) in old(files))
      // what happened is a step of a history
      ensures r.Crashed? ==>
                var A := ArtifactsIn(old(files), root);
                ArtifactsIn(files, root) == Step(cal, pol, A, CutShort(A - ArtifactsIn(files, root)))
      ensures r.Finished? && apply ==>
                ArtifactsIn(files, root) == Step(cal, pol, ArtifactsIn(old(files), root), Prune)
      ensures forall p :: p in old(files) && !Below(root, p) ==> p in files && files[p] == old(files)[p]
    {
      if pol.daily < 0 || pol.weekly < 0 || pol.monthly < 0 { return Refused; }
      if !(approved <= root) { return Refused; }
      if !present && !HoldsFiles(files, root) { return Empty; }
      var keep, expired := PlanTree(root, cal, pol);
      if !apply { return Finished(keep, expired, []); }
      PathIsStrictTotal();
      var doomed := SortSet(PathsOf(expired), PathLess);
      SortedSize(doomed, PathsOf(expired));
      var ok := DeleteAll(doomed, faultAt);
      AfterDeletion(old(files), root, expired, doomed, if ok then 2 * |doomed| else faultAt);
      InThisOrder(old(files), root, expired, doomed, if ok then 2 * |doomed| else faultAt);
      if !ok {
        assert CutOff(old(files), PathsOf(expired), faultAt, files);
        return Crashed;
      }
      return Finished(keep, expired, doomed);
    }

    /** Unlink each artifact, then its manifest, until a call raises. */
    method DeleteAll(doomed: seq<Path>, faultAt: nat) returns (ok: bool)
      modifies this
      ensures ok <==> 2 * |doomed| <= faultAt
      ensures files == old(files) - Lost(doomed, if ok then 2 * |doomed| else faultAt)
    {
      for m := 0 to |doomed|
        invariant 2 * m <= faultAt
        invariant files == old(files) - Lost(doomed, 2 * m)
      {
        LostStep(doomed, m);
        MinusBoth(old(files), Lost(doomed, 2 * m), {doomed[m]});
        MinusBoth(old(files), Lost(doomed, 2 * m + 1), {ManifestOf(doomed[m])});
        if 2 * m == faultAt { return false; }
        files := files - {doomed[m]};
        if 2 * m + 1 == faultAt { return false; }
        files := files - {ManifestOf(doomed[m])};
      }
      ok := true;
    }

    /** Group by directory, plan each stream, collect. */
    method PlanTree(root: Dir, cal: Calendar, pol: Policy) returns (keep: set<Artifact>, expired: set<Artifact>)
      ensures keep == KeptTree(cal, pol, ArtifactsIn(files, root))
      ensures expired == ArtifactsIn(files, root) - keep
    {
      var artifacts := Scan(root);
      var streams: map<Dir, seq<Artifact>> := map[];
      for n := 0 to |artifacts|
        invariant Grouped(streams, artifacts, n)
      {
        GroupStep(streams, artifacts, n);
        streams := AddTo(streams, artifacts[n]);
      }
      StreamsCoverTree(streams, artifacts);
      ghost var A := Elements(artifacts);
      keep, expired := {}, {};
      var left := streams.Keys;
      while left != {}
        invariant left <= streams.Keys
        invariant forall a :: a in keep <==> a in KeptTree(cal, pol, A) && a.path.dir !in left
        invariant forall a :: a in expired <==> a in A - KeptTree(cal, pol, A) && a.path.dir !in left
      {
        var dir :| dir in left;
        var streamKeep, streamExpired := RetentionPlan(streams[dir], cal, pol);
        PlanOnSets(cal, pol, streams[dir]);
        TreeInDir(cal, pol, A, dir);
        assert streamKeep == InDir(KeptTree(cal, pol, A), dir);
        assert streamExpired == InDir(A, dir) - streamKeep;
        keep := keep + streamKeep;
        expired := expired + streamExpired;
        left := left - {dir};
      }
    }
  }
}
