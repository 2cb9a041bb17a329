/**
 * What each phase of a sync session guarantees, stated over the filesystem state before
 * (d0, f0) and after (d1, f1) it, the mutation flag before and after it and its result; and
 * how the five guarantees compose into the guarantees of a whole session.
 */
module Phases {
  import opened FileHash
  import opened FileSystem
  import opened SyncFacts

  /** What a phase works on: the directories, the files and the flag `_operationsWerePerformed`. */
  datatype State = State(dirs: set<Loc>, files: map<Loc, Bytes>, flag: bool)

  /**
   * What a phase reports: its OperationStatus result, and the listing entries whose operation
   * was attempted and failed.
   */
  datatype Report = Report(ok: bool, failed: set<Path>)

  /**
   * DeleteOverheadDirectoriesFromTarget: the source is untouched and the archive only gains
   * (or is untouched, without archiving); the replica only loses entries, never one with a
   * source counterpart of the same kind; a replica directory with no source directory is gone
   * unless it is one whose removal failed, and those are still there; the result tells whether
   * no removal failed, that is whether every replica directory now has a source directory; the
   * flag is set exactly when some replica directory had none; and when archiving every replica
   * file is still in place or in the session archive.
   */
  ghost predicate PrunedDirs(archiving: bool, sid: string, s0: State, s1: State, rep: Report) {
    var d0, f0, d1, f1 := s0.dirs, s0.files, s1.dirs, s1.files;
    && Outside(archiving, d0, f0, d1, f1)
    && ReplicaDirsShrink(d0, d1) && ReplicaFilesShrink(f0, f1)
    && (forall p {:trigger Loc(Replica, p) in d0} {:trigger Loc(Source, p) in d0} {:trigger Loc(Replica, p) in d1} :: Loc(Replica, p) in d0 && Loc(Source, p) in d0 ==> Loc(Replica, p) in d1)
    && (forall p {:trigger Loc(Replica, p) in f0} {:trigger Loc(Source, p) in f0} {:trigger Loc(Replica, p) in f1} :: Loc(Replica, p) in f0 && Loc(Source, p) in f0 ==> Loc(Replica, p) in f1)
    && (forall p {:trigger p in rep.failed} {:trigger Loc(Replica, p) in d0} {:trigger Loc(Replica, p) in d1} :: p in rep.failed ==> Loc(Replica, p) in d0 && Loc(Source, p) !in d0 && Loc(Replica, p) in d1)
    && (forall p {:trigger Loc(Replica, p) in d0} :: Loc(Replica, p) in d0 && Loc(Source, p) !in d0 && p !in rep.failed ==> Loc(Replica, p) !in d1)
    && (rep.ok <==> rep.failed == {})
    && (rep.ok <==> DirsCovered(Replica, Source, d1))
    && s1.flag == (s0.flag || !DirsCovered(Replica, Source, d0))
    && (!s1.flag ==> d1 == d0 && f1 == f0)
    && (archiving ==> Keeps(f0, sid, f1))
  }

  /**
   * RecreateMissingDirectories: only replica directories are added, each of them a source
   * directory; every source directory is now in the replica unless its creation failed, and
   * those were missing; the result tells whether no creation failed, which implies that every
   * source directory is in the replica, and a replica already holding them all succeeds; the
   * flag is set exactly when one was missing.
   */
  ghost predicate RecreatedDirs(archiving: bool, s0: State, s1: State, rep: Report) {
    var d0, f0, d1, f1 := s0.dirs, s0.files, s1.dirs, s1.files;
    && f1 == f0 && Outside(archiving, d0, f0, d1, f1)
    && ReplicaDirsGrow(d0, d1)
    && (forall p {:trigger Loc(Replica, p) in d1} {:trigger Loc(Replica, p) in d0} {:trigger Loc(Source, p) in d0} :: Loc(Replica, p) in d1 ==> Loc(Replica, p) in d0 || Loc(Source, p) in d0)
    && (forall p {:trigger p in rep.failed} {:trigger Loc(Source, p) in d0} :: p in rep.failed ==> Loc(Source, p) in d0 && Loc(Replica, p) !in d0)
    && (forall p {:trigger Loc(Source, p) in d0} {:trigger Loc(Replica, p) in d1} :: Loc(Source, p) in d0 && p !in rep.failed ==> Loc(Replica, p) in d1)
    && (rep.ok <==> rep.failed == {})
    && (rep.ok ==> DirsCovered(Source, Replica, d1))
    && (DirsCovered(Source, Replica, d0) ==> rep.ok)
    && s1.flag == (s0.flag || !DirsCovered(Source, Replica, d0))
    && (!s1.flag ==> d1 == d0)
  }

  /**
   * RemoveOverheadFiles: replica directories are untouched and replica files only go, never
   * one with a source counterpart; a replica file with no source file is gone (into the
   * session archive, when archiving) unless its removal failed, and those are still there;
   * the result tells whether no removal failed, that is whether every replica file now has a
   * source file; the flag is set exactly when some replica file had none.
   */
  ghost predicate RemovedFiles(archiving: bool, sid: string, s0: State, s1: State, rep: Report) {
    var d0, f0, d1, f1 := s0.dirs, s0.files, s1.dirs, s1.files;
    && Outside(archiving, d0, f0, d1, f1)
    && ReplicaDirsSame(d0, d1) && ReplicaFilesShrink(f0, f1)
    && (forall p {:trigger Loc(Replica, p) in f0} {:trigger Loc(Source, p) in f0} {:trigger Loc(Replica, p) in f1} :: Loc(Replica, p) in f0 && Loc(Source, p) in f0 ==> Loc(Replica, p) in f1)
    && (forall p {:trigger p in rep.failed} {:trigger Loc(Replica, p) in f0} {:trigger Loc(Replica, p) in f1} :: p in rep.failed ==> Loc(Replica, p) in f0 && Loc(Source, p) !in f0 && Loc(Replica, p) in f1)
    && (forall p {:trigger Loc(Replica, p) in f0} :: Loc(Replica, p) in f0 && Loc(Source, p) !in f0 && p !in rep.failed ==> Loc(Replica, p) !in f1)
    && (rep.ok <==> rep.failed == {})
    && (rep.ok <==> FilesCovered(Replica, Source, f1))
    && s1.flag == (s0.flag || !FilesCovered(Replica, Source, f0))
    && (!s1.flag ==> d1 == d0 && f1 == f0)
    && (archiving ==> Keeps(f0, sid, f1))
  }

  /**
   * ReplaceEditedFiles: it throws exactly when some replica file has no source file. Otherwise
   * replica files only go or change, each to its old content or its source file's; files
   * whose digest matches the source's are untouched, and when all match nothing at all
   * changes; every other one now holds its source file's content (archiving) or is gone,
   * unless its replacement failed, and without archiving those are untouched; the result
   * tells whether no replacement failed, that is whether every replica file now matches and,
   * when archiving, none was lost; the flag is only set when something differed, and always
   * then unless an archive move failed.
   */
  ghost predicate ReplacedFiles(archiving: bool, sid: string, sha: Bytes -> Digest, s0: State, s1: State, threw: bool, rep: Report) {
    var d0, f0, d1, f1 := s0.dirs, s0.files, s1.dirs, s1.files;
    && Outside(archiving, d0, f0, d1, f1) && ReplicaDirsSame(d0, d1)
    && (archiving ==> Keeps(f0, sid, f1))
    && (threw <==> !FilesCovered(Replica, Source, f0))
    && (!threw ==>
          && (forall l: Loc {:trigger l in f1} {:trigger l in f0} :: l.root == Replica && l in f1 ==> l in f0)
          && (forall p {:trigger Loc(Replica, p) in f1} :: Loc(Replica, p) in f1 ==>
                f1[Loc(Replica, p)] == f0[Loc(Replica, p)] || f1[Loc(Replica, p)] == f0[Loc(Source, p)])
          && (forall p {:trigger Loc(Replica, p) in f0} {:trigger Loc(Replica, p) in f1} :: Loc(Replica, p) in f0 && sha(f0[Loc(Replica, p)]) == sha(f0[Loc(Source, p)]) ==>
                Loc(Replica, p) in f1 && f1[Loc(Replica, p)] == f0[Loc(Replica, p)])
          && (Agree(sha, f0) ==> d1 == d0 && f1 == f0)
          && Replaced(archiving, sha, f0, f1, rep.failed)
          && (rep.ok <==> rep.failed == {})
          && (rep.ok <==> Agree(sha, f1) && (archiving ==> ReplicaKeysKept(f0, f1)))
          && (s1.flag ==> s0.flag || !Agree(sha, f0))
          && (!archiving || rep.ok ==> s1.flag == (s0.flag || !Agree(sha, f0)))
          && (!s1.flag ==> f1 == f0))
  }

  /**
   * The replacements of ReplaceEditedFiles entry by entry: the failed ones had a differing
   * digest and are untouched or, only when archiving, gone (moved to the archive, the copy
   * failing); every other replica file with a
   * differing digest holds its source file's content (archiving) or is gone.
   */
  ghost predicate Replaced(archiving: bool, sha: Bytes -> Digest, f0: map<Loc, Bytes>, f1: map<Loc, Bytes>, failed: set<Path>)
    requires FilesCovered(Replica, Source, f0)
  {
    && (forall p {:trigger p in failed} {:trigger Loc(Replica, p) in f0} :: p in failed ==> Loc(Replica, p) in f0 && sha(f0[Loc(Replica, p)]) != sha(f0[Loc(Source, p)]))
    && (forall p {:trigger p in failed} {:trigger Loc(Replica, p) in f1} :: p in failed ==> Loc(Replica, p) in f1 ==> f1[Loc(Replica, p)] == f0[Loc(Replica, p)])
    && (forall p {:trigger p in failed} {:trigger Loc(Replica, p) in f1} :: p in failed && !archiving ==> Loc(Replica, p) in f1)
    && (forall p {:trigger Loc(Replica, p) in f0} {:trigger Loc(Replica, p) in f1} :: Loc(Replica, p) in f0 && sha(f0[Loc(Replica, p)]) != sha(f0[Loc(Source, p)]) && p !in failed ==>
          if archiving then Loc(Replica, p) in f1 && f1[Loc(Replica, p)] == f0[Loc(Source, p)] else Loc(Replica, p) !in f1)
  }

  /**
   * ImportMissingFiles: replica files already there are untouched and every new one is a copy
   * of the source file at its path; every source file is now in the replica unless its copy
   * failed, and those are still missing; the result tells whether no copy failed, that is
   * whether every source file is now in the replica; the flag is set exactly when one was
   * missing.
   */
  ghost predicate ImportedFiles(archiving: bool, s0: State, s1: State, rep: Report) {
    var d0, f0, d1, f1 := s0.dirs, s0.files, s1.dirs, s1.files;
    && d1 == d0 && Outside(archiving, d0, f0, d1, f1)
    && (forall l: Loc {:trigger l in f0} {:trigger l in f1} :: l.root == Replica && l in f0 ==> l in f1 && f1[l] == f0[l])
    && (forall p {:trigger Loc(Replica, p) in f1} {:trigger Loc(Source, p) in f0} :: Loc(Replica, p) in f1 && Loc(Replica, p) !in f0 ==>
          Loc(Source, p) in f0 && f1[Loc(Replica, p)] == f0[Loc(Source, p)])
    && (forall p {:trigger p in rep.failed} {:trigger Loc(Source, p) in f0} :: p in rep.failed ==> Loc(Source, p) in f0 && Loc(Replica, p) !in f1)
    && (forall p {:trigger Loc(Source, p) in f0} {:trigger Loc(Replica, p) in f1} :: Loc(Source, p) in f0 && p !in rep.failed ==> Loc(Replica, p) in f1)
    && (rep.ok <==> rep.failed == {})
    && (rep.ok <==> FilesCovered(Source, Replica, f1))
    && s1.flag == (s0.flag || !FilesCovered(Source, Replica, f0))
    && (!s1.flag ==> f1 == f0)
  }

  /**
   * A run of the five phases of a session: the state before it and after each phase, each
   * phase's report, and whether ReplaceEditedFiles threw (`stopped`), in which case
   * ImportMissingFiles does not run, `imported` is the state ReplaceEditedFiles left and
   * `importing` stands for nothing.
   */
  datatype Run = Run(start: State, pruned: State, recreated: State, removed: State, replaced: State, imported: State,
                     pruning: Report, recreating: Report, removing: Report, replacing: Report, importing: Report,
                     stopped: bool)
  {
    /** The session's result: no phase threw and every phase reported success. */
    predicate Succeeded() {
      !stopped && pruning.ok && recreating.ok && removing.ok && replacing.ok && importing.ok
    }
  }

  /** Each phase of `run` ran from where the previous one left off and did what it promises. */
  ghost predicate RanPhases(archiving: bool, sid: string, sha: Bytes -> Digest, run: Run) {
    && PrunedDirs(archiving, sid, run.start, run.pruned, run.pruning)
    && RecreatedDirs(archiving, run.pruned, run.recreated, run.recreating)
    && RemovedFiles(archiving, sid, run.recreated, run.removed, run.removing)
    && ReplacedFiles(archiving, sid, sha, run.removed, run.replaced, run.stopped, run.replacing)
    && (if run.stopped then run.imported == run.replaced else ImportedFiles(archiving, run.replaced, run.imported, run.importing))
  }

  /** The replica mirrors the source, stated over locations. */
  ghost predicate MirrorsAt(sha: Bytes -> Digest, d: set<Loc>, f: map<Loc, Bytes>) {
    && DirsCovered(Replica, Source, d) && DirsCovered(Source, Replica, d)
    && FilesCovered(Source, Replica, f) && Agree(sha, f)
  }

  /** The tree-level reading of `MirrorsAt`, in both directions. */
  lemma MirrorsView(sha: Bytes -> Digest, d: set<Loc>, f: map<Loc, Bytes>)
    ensures MirrorsAt(sha, d, f) <==> Mirrors(View(d, f, Source), View(d, f, Replica), sha)
  {
    if MirrorsAt(sha, d, f) {
      MirroredTrees(sha, d, f);
    }
    if Mirrors(View(d, f, Source), View(d, f, Replica), sha) {
      MirroredLocs(sha, d, f);
    }
  }

  lemma MirroredTrees(sha: Bytes -> Digest, d: set<Loc>, f: map<Loc, Bytes>)
    requires MirrorsAt(sha, d, f)
    ensures Mirrors(View(d, f, Source), View(d, f, Replica), sha)
  {
    var src, rep := View(d, f, Source), View(d, f, Replica);
    forall p ensures p in rep.dirs <==> p in src.dirs {
      assert Loc(Replica, p) in d <==> Loc(Source, p) in d;
    }
    assert rep.dirs == src.dirs;
    forall p ensures p in rep.files <==> p in src.files {
      assert Loc(Replica, p) in f <==> Loc(Source, p) in f;
    }
    assert rep.files.Keys == src.files.Keys;
    forall p | p in rep.files ensures sha(rep.files[p]) == sha(src.files[p]) {
      assert Loc(Replica, p) in f && rep.files[p] == f[Loc(Replica, p)];
    }
  }

  lemma MirroredLocs(sha: Bytes -> Digest, d: set<Loc>, f: map<Loc, Bytes>)
    requires Mirrors(View(d, f, Source), View(d, f, Replica), sha)
    ensures MirrorsAt(sha, d, f)
  {
    var src, rep := View(d, f, Source), View(d, f, Replica);
    forall p | Loc(Replica, p) in d ensures Loc(Source, p) in d {
      assert p in rep.dirs;
    }
    forall p | Loc(Source, p) in d ensures Loc(Replica, p) in d {
      assert p in src.dirs;
    }
    forall p | Loc(Source, p) in f ensures Loc(Replica, p) in f {
      assert p in src.files;
    }
    forall p | Loc(Replica, p) in f
      ensures Loc(Source, p) in f && sha(f[Loc(Replica, p)]) == sha(f[Loc(Source, p)])
    {
      assert p in rep.files && p in src.files;
      assert rep.files[p] == f[Loc(Replica, p)] && src.files[p] == f[Loc(Source, p)];
    }
  }

  /** Directory phases: once phases 1 and 2 succeed, replica and source have the same directories, and phases 3 to 5 keep them. */
  lemma DirsConverge(archiving: bool, sid: string, s0: State, s1: State, s2: State, s5: State, r0: Report, r1: Report)
    requires PrunedDirs(archiving, sid, s0, s1, r0) && r0.ok
    requires RecreatedDirs(archiving, s1, s2, r1) && r1.ok
    requires SameRoot(Source, s2.dirs, s2.files, s5.dirs, s5.files) && ReplicaDirsSame(s2.dirs, s5.dirs)
    ensures DirsCovered(Replica, Source, s5.dirs) && DirsCovered(Source, Replica, s5.dirs)
  {
  }

  /** File phases: once phases 3 to 5 succeed, the replica holds the source's files, each with the source file's digest. */
  lemma FilesConverge(archiving: bool, sid: string, sha: Bytes -> Digest, s2: State, s3: State, s4: State, s5: State,
                      r2: Report, r3: Report, r4: Report)
    requires RemovedFiles(archiving, sid, s2, s3, r2) && r2.ok
    requires ReplacedFiles(archiving, sid, sha, s3, s4, false, r3) && r3.ok
    requires ImportedFiles(archiving, s4, s5, r4) && r4.ok
    ensures FilesCovered(Source, Replica, s5.files) && Agree(sha, s5.files)
  {
    forall p | Loc(Replica, p) in s5.files
      ensures Loc(Source, p) in s5.files && sha(s5.files[Loc(Replica, p)]) == sha(s5.files[Loc(Source, p)])
    {
      if Loc(Replica, p) in s4.files {
        assert Loc(Source, p) in s4.files;
      }
    }
  }

  /** A run of the five phases that all succeed leaves the replica mirroring the source. */
  lemma Converges(archiving: bool, sid: string, sha: Bytes -> Digest, run: Run)
    requires RanPhases(archiving, sid, sha, run) && run.Succeeded()
    ensures MirrorsAt(sha, run.imported.dirs, run.imported.files)
  {
    var s2, s3, s4, s5 := run.recreated, run.removed, run.replaced, run.imported;
    SameRootTrans(Source, s2.dirs, s2.files, s3.dirs, s3.files, s4.dirs, s4.files);
    SameRootTrans(Source, s2.dirs, s2.files, s4.dirs, s4.files, s5.dirs, s5.files);
    DirsConverge(archiving, sid, run.start, run.pruned, s2, s5, run.pruning, run.recreating);
    FilesConverge(archiving, sid, sha, s2, s3, s4, s5, run.removing, run.replacing, run.importing);
  }

  /**
   * A run started from a false flag on a replica that already mirrors the source does not
   * throw, fails nothing, sets no flag and changes nothing at all.
   */
  lemma Idle(archiving: bool, sid: string, sha: Bytes -> Digest, run: Run)
    requires RanPhases(archiving, sid, sha, run)
    requires !run.start.flag && MirrorsAt(sha, run.start.dirs, run.start.files)
    ensures !run.stopped && run.imported == run.start
    ensures run.pruning == run.recreating == run.removing == run.replacing == run.importing == Report(true, {})
  {
    PrunedIdle(archiving, sid, run.start, run.pruned, run.pruning);
    RecreatedIdle(archiving, run.pruned, run.recreated, run.recreating);
    RemovedIdle(archiving, sid, run.recreated, run.removed, run.removing);
    ReplacedIdle(archiving, sid, sha, run.removed, run.replaced, run.stopped, run.replacing);
    ImportedIdle(archiving, run.replaced, run.imported, run.importing);
  }

  /** Each phase, from a false flag with nothing to do, changes nothing and fails nothing. */
  lemma PrunedIdle(archiving: bool, sid: string, s0: State, s1: State, rep: Report)
    requires PrunedDirs(archiving, sid, s0, s1, rep) && !s0.flag && DirsCovered(Replica, Source, s0.dirs)
    ensures s1 == s0 && rep == Report(true, {})
  {
  }

  lemma RecreatedIdle(archiving: bool, s0: State, s1: State, rep: Report)
    requires RecreatedDirs(archiving, s0, s1, rep) && !s0.flag && DirsCovered(Source, Replica, s0.dirs)
    ensures s1 == s0 && rep == Report(true, {})
  {
  }

  lemma RemovedIdle(archiving: bool, sid: string, s0: State, s1: State, rep: Report)
    requires RemovedFiles(archiving, sid, s0, s1, rep) && !s0.flag && FilesCovered(Replica, Source, s0.files)
    ensures s1 == s0 && rep == Report(true, {})
  {
  }

  lemma ReplacedIdle(archiving: bool, sid: string, sha: Bytes -> Digest, s0: State, s1: State, threw: bool, rep: Report)
    requires ReplacedFiles(archiving, sid, sha, s0, s1, threw, rep) && !s0.flag && Agree(sha, s0.files)
    ensures !threw && s1 == s0 && rep == Report(true, {})
  {
  }

  lemma ImportedIdle(archiving: bool, s0: State, s1: State, rep: Report)
    requires ImportedFiles(archiving, s0, s1, rep) && !s0.flag && FilesCovered(Source, Replica, s0.files)
    ensures s1 == s0 && rep == Report(true, {})
  {
  }

  /**
   * Conversely, a successful run from a false flag that set no flag started on a replica that
   * already mirrored the source.
   */
  lemma NothingToDo(archiving: bool, sid: string, sha: Bytes -> Digest, run: Run)
    requires RanPhases(archiving, sid, sha, run) && run.Succeeded()
    requires !run.start.flag && !run.imported.flag
    ensures MirrorsAt(sha, run.start.dirs, run.start.files)
  {
    assert !run.pruned.flag && !run.recreated.flag && !run.removed.flag && !run.replaced.flag;
    assert run.pruned.dirs == run.start.dirs && run.pruned.files == run.start.files;
    assert run.recreated.dirs == run.pruned.dirs && run.recreated.files == run.pruned.files;
    assert run.removed.dirs == run.recreated.dirs && run.removed.files == run.recreated.files;
    assert run.replaced.files == run.removed.files;
  }

  /**
   * Through the whole run, the source is untouched, the archive only gains (or is untouched
   * without archiving), and when archiving every replica file of the start is still in place
   * or in the session archive with its content.
   */
  lemma Preserved(archiving: bool, sid: string, sha: Bytes -> Digest, run: Run)
    requires RanPhases(archiving, sid, sha, run)
    ensures Outside(archiving, run.start.dirs, run.start.files, run.imported.dirs, run.imported.files)
    ensures archiving ==> Keeps(run.start.files, sid, run.imported.files)
  {
    var d0, f0 := run.start.dirs, run.start.files;
    var s1, s2, s3, s4 := run.pruned, run.recreated, run.removed, run.replaced;
    OutsideTrans(archiving, d0, f0, s1.dirs, s1.files, s2.dirs, s2.files);
    OutsideTrans(archiving, d0, f0, s2.dirs, s2.files, s3.dirs, s3.files);
    OutsideTrans(archiving, d0, f0, s3.dirs, s3.files, s4.dirs, s4.files);
    if archiving {
      KeepsTransitive(sid, f0, s1.dirs, s1.files, s3.dirs, s3.files);
      KeepsTransitive(sid, f0, s3.dirs, s3.files, s4.dirs, s4.files);
    }
    if !run.stopped {
      OutsideTrans(archiving, d0, f0, s4.dirs, s4.files, run.imported.dirs, run.imported.files);
    }
  }
}
