/**
  One backup run: two backups, retention right behind them, then the manifests are read back.
  Whether a run survives its own retention is stated by what was in the tree before.
 */
module BackupRun {
  import opened Ordering
  import opened Retention
  import opened RetentionLaws
  import opened BackupStore

  /** What a backup subprocess did: nothing, or an artifact with its manifest. */
  datatype Backup = Broken | Written(mtime: int, manifestTime: int)

  /** How far the run record got. */
  datatype Writing = Missing | Partial | Complete

  /** Everything a run depends on besides the tree: its arguments and what its steps meet. */
  datatype Job = Job(
    out: Dir, stamp: string, project: string,
    db: Backup, data: Backup,
    approved: Dir, cal: Calendar, pol: Policy, apply: bool, faultAt: nat,
    parses: bool,            // both manifests are well-formed
    record: Writing, now: int,
    alertArrives: bool)

  function Database(j: Job): Path {
    Path(j.out + ["database"], j.stamp + "_" + j.project + ".dump.enc")
  }

  function Runtime(j: Job): Path {
    Path(j.out + ["data"], j.stamp + "_runtime-data.tar.gz.enc")
  }

  function Record(j: Job): Path {
    Path(j.out + ["runs"], j.stamp + "_" + j.project + ".json")
  }

  lemma RunPaths(j: Job)
    ensures IsArtifact(Database(j)) && IsArtifact(Runtime(j)) && !IsArtifact(Record(j))
    ensures Below(j.out, Database(j)) && Below(j.out, Runtime(j)) && Below(j.out, ManifestOf(Database(j)))
    ensures Database(j).dir != Runtime(j).dir
    ensures Record(j).dir != Database(j).dir && Record(j).dir != Runtime(j).dir
  {
    assert Database(j).name[|Database(j).name| - 4..] == ".enc";
    assert Runtime(j).name[|Runtime(j).name| - 4..] == ".enc";
    assert Record(j).name[|Record(j).name| - 4..][3] == 'n';
    assert Database(j).dir[|j.out|] == "database" && Runtime(j).dir[|j.out|] == "data";
    assert Record(j).dir[|j.out|] == "runs";
    assert |"database"| != |"data"| && |"runs"| != |"database"| && "runs"[0] != "data"[0];
  }

  function WithBackup(files: Tree, p: Path, b: Backup): Tree
    requires b.Written?
  {
    files[p := b.mtime][ManifestOf(p) := b.manifestTime]
  }

  /** The database backup succeeded: it refuses a name that is taken. */
  ghost predicate DatabaseSaved(j: Job, files: Tree) {
    j.db.Written? && Database(j) !in files
  }

  ghost predicate BothSaved(j: Job, files: Tree) {
    DatabaseSaved(j, files) && j.data.Written? && Runtime(j) !in files
  }

  /** The tree right after both backups. */
  ghost function AfterBackups(j: Job, files: Tree): Tree
    requires j.db.Written? && j.data.Written?
  {
    WithBackup(WithBackup(files, Database(j), j.db), Runtime(j), j.data)
  }

  ghost predicate FreshKept(j: Job, files: Tree, p: Path) {
    p in files && Artifact(p, files[p]) in KeptTree(j.cal, j.pol, ArtifactsIn(files, j.out))
  }

  /** No unlink is disturbed. */
  ghost predicate Undisturbed(j: Job, files: Tree) {
    2 * |PathsOf(ExpiredIn(j.cal, j.pol, files, j.out))| <= j.faultAt
  }

  /** Retention exits with code 0. */
  ghost predicate RetentionSucceeds(j: Job, files: Tree) {
    Admitted(j.pol, j.approved, j.out) && (j.apply ==> Undisturbed(j, files))
  }

  ghost predicate EvidenceKept(j: Job, files: Tree) {
    j.apply ==> FreshKept(j, files, Database(j)) && FreshKept(j, files, Runtime(j))
  }

  ghost function AfterRetention(j: Job, files: Tree): Tree {
    if j.apply then Pruned(j.cal, j.pol, files, j.out) else files
  }

  /** The tree a run leaves whose retention succeeded on `files`. */
  ghost function AfterRecord(j: Job, files: Tree): Tree {
    var after := AfterRetention(j, files);
    if EvidenceKept(j, files) && j.parses && !j.record.Missing? then after[Record(j) := j.now] else after
  }

  /** Every artifact in the directory of the fresh one at p is older. */
  ghost predicate Latest(j: Job, files: Tree, p: Path, mtime: int) {
    forall a :: a in InDir(ArtifactsIn(files, j.out), p.dir) ==> a.mtime < mtime
  }

  /** Something newer than the fresh artifact at p fell on the same day, week and month. */
  ghost predicate Outrun(j: Job, files: Tree, p: Path, mtime: int) {
    exists a :: a in InDir(ArtifactsIn(files, j.out), p.dir) && a.mtime > mtime &&
                forall k :: KeyOf(j.cal, k, a) == KeyOf(j.cal, k, Artifact(p, mtime))
  }

  // ---------------------------------------------------------------- does the evidence stay?

  /** After an applied retention an artifact and its manifest are both there iff it was kept. */
  lemma EvidenceStays(j: Job, files: Tree, p: Path)
    requires IsArtifact(p) && Below(j.out, p) && p in files && ManifestOf(p) in files
    ensures var after := Pruned(j.cal, j.pol, files, j.out);
            (FreshKept(j, files, p) <==> ManifestOf(p) in after) && (FreshKept(j, files, p) <==> p in after)
  {
    var expired := ExpiredIn(j.cal, j.pol, files, j.out);
    ManifestsAreApart(p, p);
    assert Artifact(p, files[p]) in ArtifactsIn(files, j.out);
    forall a | a in expired ensures a.path == p ==> !FreshKept(j, files, p) {}
    forall q | q in PathsOf(expired)
      ensures (ManifestOf(q) == ManifestOf(p) ==> q == p) && ManifestOf(q) != p && q != ManifestOf(p)
    {
      ManifestsAreApart(q, p);
    }
    if !FreshKept(j, files, p) {
      assert Artifact(p, files[p]) in expired;
      assert p in PathsOf(expired);
    }
  }

  /** Both backups are there, and every other artifact is where it was. */
  lemma BackupsArrive(j: Job, files: Tree)
    requires BothSaved(j, files)
    ensures var t := AfterBackups(j, files); var d, r := Database(j), Runtime(j);
      && d in t && t[d] == j.db.mtime && ManifestOf(d) in t
      && r in t && t[r] == j.data.mtime && ManifestOf(r) in t
      && ArtifactsIn(t, j.out) ==
           ArtifactsIn(files, j.out) + {Artifact(d, j.db.mtime), Artifact(r, j.data.mtime)}
  {
    RunPaths(j);
    var d, r := Database(j), Runtime(j);
    ManifestsAreApart(d, d);
    ManifestsAreApart(r, r);
    ManifestsAreApart(d, r);
    ManifestsAreApart(r, d);
  }

  lemma LatestIsKept(j: Job, files: Tree, t: Tree, p: Path, mtime: int, other: Artifact)
    requires ArtifactsIn(t, j.out) == ArtifactsIn(files, j.out) + {Artifact(p, mtime), other}
    requires other.path.dir != p.dir && p in t && t[p] == mtime
    ensures Latest(j, files, p, mtime) ==> FreshKept(j, t, p)
    ensures Outrun(j, files, p, mtime) ==> !FreshKept(j, t, p)
  {
    var mine, A := Artifact(p, mtime), ArtifactsIn(t, j.out);
    if Latest(j, files, p, mtime) {
      forall b | b in InDir(A, p.dir) ensures b == mine || Newer(mine, b) {
        assert b == mine || b in InDir(ArtifactsIn(files, j.out), p.dir);
      }
      assert Newest(InDir(A, p.dir), mine);
    }
    if Outrun(j, files, p, mtime) {
      var b :| b in InDir(ArtifactsIn(files, j.out), p.dir) && b.mtime > mtime &&
               forall k :: KeyOf(j.cal, k, b) == KeyOf(j.cal, k, mine);
      NewerEvicts(j.cal, j.pol, A, mine, b);
    }
  }

  /** A backup newer than all others of its directory survives; one that is outrun does not. */
  lemma FreshBackups(j: Job, files: Tree)
    requires BothSaved(j, files)
    ensures var t := AfterBackups(j, files);
      && (Latest(j, files, Database(j), j.db.mtime) ==> FreshKept(j, t, Database(j)))
      && (Latest(j, files, Runtime(j), j.data.mtime) ==> FreshKept(j, t, Runtime(j)))
      && (Outrun(j, files, Database(j), j.db.mtime) ==> !FreshKept(j, t, Database(j)))
      && (Outrun(j, files, Runtime(j), j.data.mtime) ==> !FreshKept(j, t, Runtime(j)))
  {
    RunPaths(j);
    BackupsArrive(j, files);
    var t, d, r := AfterBackups(j, files), Artifact(Database(j), j.db.mtime), Artifact(Runtime(j), j.data.mtime);
    assert {r, d} == {d, r};
    LatestIsKept(j, files, t, d.path, j.db.mtime, r);
    LatestIsKept(j, files, t, r.path, j.data.mtime, d);
  }

  // ---------------------------------------------------------------- the run

  /** The steps after retention go well. */
  predicate Concludes(j: Job) {
    j.parses && j.record.Complete? && j.alertArrives
  }

  /** Every step succeeds and retention keeps both fresh artifacts. */
  ghost predicate Succeeds(j: Job, files: Tree) {
    BothSaved(j, files) &&
    var t := AfterBackups(j, files);
    RetentionSucceeds(j, t) && EvidenceKept(j, t) && Concludes(j)
  }

  /** The tree, wherever the run ends. */
  ghost predicate Leaves(j: Job, files: Tree, after: Tree) {
    if !DatabaseSaved(j, files) then after == files
    else if !BothSaved(j, files) then after == WithBackup(files, Database(j), j.db)
    else
      var t := AfterBackups(j, files);
      if RetentionSucceeds(j, t) then after == AfterRecord(j, t)
      else if Admitted(j.pol, j.approved, j.out) then
        CutOff(t, PathsOf(ExpiredIn(j.cal, j.pol, t, j.out)), j.faultAt, after)
      else after == t
  }

  /** What success takes, step by step. */
  lemma SuccessMeaning(j: Job, files: Tree)
    ensures var d := Path(j.out + ["database"], j.stamp + "_" + j.project + ".dump.enc");
            var r := Path(j.out + ["data"], j.stamp + "_runtime-data.tar.gz.enc");
            Succeeds(j, files) <==>
              && j.db.Written? && d !in files && j.data.Written? && r !in files
              && j.pol.daily >= 0 && j.pol.weekly >= 0 && j.pol.monthly >= 0
              && |j.approved| <= |j.out| && j.out[..|j.approved|] == j.approved
              && j.parses && j.record.Complete? && j.alertArrives
              && (j.apply ==>
                    var A := ArtifactsIn(files, j.out) + {Artifact(d, j.db.mtime), Artifact(r, j.data.mtime)};
                    var kept := KeptTree(j.cal, j.pol, A);
                    Artifact(d, j.db.mtime) in kept && Artifact(r, j.data.mtime) in kept &&
                    2 * |set a | a in A - kept :: a.path| <= j.faultAt)
  {
    if BothSaved(j, files) { RetentionMeaning(j, files); }
  }

  /** What retention decides right after both backups. */
  lemma RetentionMeaning(j: Job, files: Tree)
    requires BothSaved(j, files)
    ensures var t := AfterBackups(j, files);
            var d, r := Artifact(Database(j), j.db.mtime), Artifact(Runtime(j), j.data.mtime);
            var A := ArtifactsIn(files, j.out) + {d, r};
            var kept := KeptTree(j.cal, j.pol, A);
      && (EvidenceKept(j, t) <==> (j.apply ==> d in kept && r in kept))
      && (Undisturbed(j, t) <==> 2 * |set a | a in A - kept :: a.path| <= j.faultAt)
  {
    BackupsArrive(j, files);
  }

  /** A run whose two backups are newer than everything in their directories succeeds if no step
      fails; one with a backup that is outrun fails if retention is applied. */
  lemma NewestRunsSucceed(j: Job, files: Tree)
    requires BothSaved(j, files)
    ensures (Latest(j, files, Database(j), j.db.mtime) && Latest(j, files, Runtime(j), j.data.mtime) &&
             RetentionSucceeds(j, AfterBackups(j, files)) && Concludes(j)) ==> Succeeds(j, files)
    ensures j.apply && Outrun(j, files, Database(j), j.db.mtime) ==> !Succeeds(j, files)
    ensures j.apply && Outrun(j, files, Runtime(j), j.data.mtime) ==> !Succeeds(j, files)
  {
    FreshBackups(j, files);
  }

  /** A run that succeeds leaves both artifacts, both manifests and its record. */
  lemma SuccessLeavesEvidence(j: Job, files: Tree, after: Tree)
    requires Succeeds(j, files) && Leaves(j, files, after)
    ensures forall p :: p in {Database(j), Runtime(j)} ==> p in after && ManifestOf(p) in after
    ensures Record(j) in after
  {
    var t := AfterBackups(j, files);
    RunPaths(j);
    BackupsArrive(j, files);
    EvidenceStays(j, t, Database(j));
    EvidenceStays(j, t, Runtime(j));
  }

  /** The two backup subprocesses. */
  method SaveBoth(store: Store, j: Job) returns (ok: bool)
    modifies store
    ensures ok <==> BothSaved(j, old(store.files))
    ensures ok ==> store.files == AfterBackups(j, old(store.files))
    ensures !ok ==> Leaves(j, old(store.files), store.files)
  {
    var database, runtime := Database(j), Runtime(j);
    RunPaths(j);
    if j.db.Broken? || database in store.files { return false; }
    store.files := WithBackup(store.files, database, j.db);
    if j.data.Broken? || runtime in store.files { return false; }
    store.files := WithBackup(store.files, runtime, j.data);
    return true;
  }

  lemma EvidenceIsRead(j: Job, t: Tree)
    requires Database(j) in t && ManifestOf(Database(j)) in t && Runtime(j) in t && ManifestOf(Runtime(j)) in t
    ensures EvidenceKept(j, t) <==>
            ManifestOf(Database(j)) in AfterRetention(j, t) && ManifestOf(Runtime(j)) in AfterRetention(j, t)
  {
    RunPaths(j);
    EvidenceStays(j, t, Database(j));
    EvidenceStays(j, t, Runtime(j));
  }

  /** The manifests are read, the record is written, the alert is resolved. */
  method Conclude(store: Store, j: Job, ghost t: Tree) returns (ok: bool)
    requires Database(j) in t && ManifestOf(Database(j)) in t && Runtime(j) in t && ManifestOf(Runtime(j)) in t
    requires store.files == AfterRetention(j, t)
    modifies store
    ensures ok <==> EvidenceKept(j, t) && Concludes(j)
    ensures store.files == AfterRecord(j, t)
  {
    EvidenceIsRead(j, t);
    if ManifestOf(Database(j)) !in store.files || ManifestOf(Runtime(j)) !in store.files || !j.parses {
      return false;
    }
    if j.record != Missing { store.files := store.files[Record(j) := j.now]; }
    return j.record == Complete && j.alertArrives;
  }

  /** One backup run, to its exit code. */
  method RunBackup(store: Store, j: Job) returns (code: int)
    modifies store
    ensures code == if Succeeds(j, old(store.files)) then 0 else 1
    ensures Leaves(j, old(store.files), store.files)
    ensures code == 0 ==>
              && (forall p :: p in {Database(j), Runtime(j)} ==> p in store.files && ManifestOf(p) in store.files)
              && Path(j.out + ["database"], j.stamp + "_" + j.project + ".dump.enc") in store.files
              && Path(j.out + ["data"], j.stamp + "_runtime-data.tar.gz.enc") in store.files
              && Path(j.out + ["runs"], j.stamp + "_" + j.project + ".json") in store.files
  {
    var ok := SaveBoth(store, j);
    if !ok { return 1; }
    ghost var t := store.files;
    BackupsArrive(j, old(store.files));
    var outcome := store.Retain(j.approved, j.out, true, j.cal, j.pol, j.apply, j.faultAt);
    if outcome.Refused? || outcome.Crashed? { return 1; }
    ok := Conclude(store, j, t);
    if !ok { return 1; }
    SuccessLeavesEvidence(j, old(store.files), store.files);
    return 0;
  }
}
