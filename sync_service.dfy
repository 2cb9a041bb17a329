/**
 * SyncService: one synchronization session from the source tree to the replica tree, in five
 * phases (overhead directories, missing directories, overhead files, edited files, missing
 * files), each phase working through a listing taken when it starts and reporting through its
 * own OperationStatus.
 */
module Sync {
  import opened Wrappers
  import opened FileHash
  import opened FileSystem
  import opened Status
  import opened SessionIds
  import opened SyncFacts
  import opened Phases
  import OverheadDirsProof
  import MissingDirsProof
  import OverheadFilesProof
  import EditedFilesProof
  import MissingFilesProof
  import SessionProof

  /** What `PerformSync` does: return a success flag, or let an exception escape. */
  datatype SyncOutcome = Completed(success: bool) | Threw

  class SyncService {
    const fs: FileSystem
    const useArchiving: bool
    var operationsWerePerformed: bool
    var currentSessionId: string
    /** The outcomes of the sessions run so far, oldest first. */
    ghost var sessions: seq<SyncOutcome>

    constructor (fs: FileSystem, useArchiving: bool)
      ensures this.fs == fs && this.useArchiving == useArchiving
      ensures !operationsWerePerformed && sessions == []
    {
      this.fs := fs;
      this.useArchiving := useArchiving;
      operationsWerePerformed := false;
      currentSessionId := "";
      sessions := [];
    }

    /**
     * `_sessionArchivePath`: the session's folder, directly in the archive; everything the
     * session archives lies inside it.
     */
    function SessionArchive(): (r: Loc)
      reads this
      ensures r.root == Archive && |r.path| == 1
      ensures forall p :: Within(Archived(currentSessionId, p), r)
    {
      SessionDir(currentSessionId)
    }

    /**
     * PerformSync: one session, recorded in `sessions`. The flag is reset, the session folder
     * and log are set up, the five phases run in order (each one even when an earlier one
     * failed) as the run `run`, and the session folder is removed when it stayed empty.
     * `Threw` stands for an exception escaping: the session folder cannot be created (there
     * is no run and nothing changed) or removed, an edited-file check meets a replica file
     * with no source counterpart (the run stopped, and the log is kept), or CleanupFiles
     * finds the session folder gone. When the run did not stop the log is kept exactly when
     * the flag is set.
     */
    method PerformSync(now: Timestamp) returns (r: SyncOutcome, ghost run: Option<Run>)
      requires fs.Valid() && now.Valid()
      modifies this, fs
      ensures fs.Valid() && currentSessionId == SessionId(now)
      ensures sessions == old(sessions) + [r]
      ensures run.None? ==>
                && r == Threw && !operationsWerePerformed
                && fs.dirs == old(fs.dirs) && fs.files == old(fs.files) && fs.sessionLogs == old(fs.sessionLogs)
      ensures r.Completed? ==> run.Some? && !run.value.stopped && r.success == run.value.Succeeded()
      ensures run.Some? && run.value.stopped ==> r == Threw && fs.sessionLogs == old(fs.sessionLogs) + {currentSessionId}
      ensures run.Some? && !run.value.stopped ==>
                fs.sessionLogs == if operationsWerePerformed then old(fs.sessionLogs) + {currentSessionId}
                                  else old(fs.sessionLogs) - {currentSessionId}
      ensures fs.Tree(Source) == old(fs.Tree(Source))
      ensures useArchiving ==> Keeps(old(fs.files), currentSessionId, fs.files)
      ensures r == Completed(true) ==> Mirrors(fs.Tree(Source), fs.Tree(Replica), fs.sha256)
      ensures old(Mirrors(fs.Tree(Source), fs.Tree(Replica), fs.sha256)) ==>
                fs.Tree(Replica) == old(fs.Tree(Replica)) && !operationsWerePerformed && r != Completed(false)
      ensures r == Completed(true) ==> (operationsWerePerformed <==> !old(Mirrors(fs.Tree(Source), fs.Tree(Replica), fs.sha256)))
      ensures r.Completed? ==> (fs.IsDir(SessionArchive()) <==> !NoChildren(fs.dirs, fs.files, SessionArchive()))
      ensures !useArchiving && r.Completed? && !old(fs.IsDir(SessionDir(SessionId(now)))) ==>
                fs.Tree(Archive) == old(fs.Tree(Archive))
      ensures old(Mirrors(fs.Tree(Source), fs.Tree(Replica), fs.sha256)) && r.Completed? && !old(fs.IsDir(SessionDir(SessionId(now)))) ==>
                fs.dirs == old(fs.dirs) && fs.files == old(fs.files)
      ensures run.Some? ==>
                && run.value.start == State(old(fs.dirs) + {SessionArchive()}, old(fs.files), false)
                && RanPhases(useArchiving, currentSessionId, fs.sha256, run.value)
                && fs.files == run.value.imported.files && operationsWerePerformed == run.value.imported.flag
                && (fs.dirs == run.value.imported.dirs || fs.dirs == run.value.imported.dirs - {SessionArchive()})
    {
      ghost var dA, fA := fs.dirs, fs.files;
      operationsWerePerformed := false;
      run := None;
      var setupThrew := SetupSyncFiles(now);
      if setupThrew {
        r := Threw;
      } else {
        var threw, syncSuccessful, phases := RunPhases();
        run := Some(phases);
        if threw {
          SessionProof.AroundSession(useArchiving, currentSessionId, fs.sha256, dA, fA, fs.dirs, fs.files, fs.dirs, operationsWerePerformed, false);
          r := Threw;
        } else {
          r := CloseSession(dA, fA, old(fs.sessionLogs), syncSuccessful);
        }
      }
      sessions := sessions + [r];
    }

    /**
     * The five phases in the middle of PerformSync, from a reset flag, as the run `run`: each
     * one runs even when an earlier one failed, and `success` is the conjunction of their
     * results. `threw` stands for the exception ReplaceEditedFiles lets escape, after which
     * ImportMissingFiles does not run; it cannot happen to a replica that mirrors the source.
     */
    method RunPhases() returns (threw: bool, success: bool, ghost run: Run)
      requires fs.Valid() && !operationsWerePerformed
      modifies this`operationsWerePerformed, fs
      ensures fs.Valid() && fs.sessionLogs == old(fs.sessionLogs) && currentSessionId == old(currentSessionId)
      ensures run.start == State(old(fs.dirs), old(fs.files), old(operationsWerePerformed))
      ensures run.imported == State(fs.dirs, fs.files, operationsWerePerformed)
      ensures RanPhases(useArchiving, currentSessionId, fs.sha256, run)
      ensures threw == run.stopped && success == run.Succeeded()
      ensures SessionProof.Session(useArchiving, currentSessionId, fs.sha256, run.start, run.imported, success)
      ensures threw ==> !MirrorsAt(fs.sha256, old(fs.dirs), old(fs.files))
    {
      ghost var s0 := State(fs.dirs, fs.files, operationsWerePerformed);
      var ok1, failed1 := DeleteOverheadDirectoriesFromTarget();
      ghost var s1 := State(fs.dirs, fs.files, operationsWerePerformed);
      var ok2, failed2 := RecreateMissingDirectories();
      ghost var s2 := State(fs.dirs, fs.files, operationsWerePerformed);
      var ok3, failed3 := RemoveOverheadFiles();
      ghost var s3 := State(fs.dirs, fs.files, operationsWerePerformed);
      var threw4, ok4, failed4 := ReplaceEditedFiles();
      ghost var s4 := State(fs.dirs, fs.files, operationsWerePerformed);
      if threw4 {
        threw, success := true, false;
        run := Run(s0, s1, s2, s3, s4, s4, Report(ok1, failed1), Report(ok2, failed2), Report(ok3, failed3), Report(ok4, failed4),
                   Report(false, {}), true);
      } else {
        var ok5, failed5 := ImportMissingFiles();
        threw, success := false, ok1 && ok2 && ok3 && ok4 && ok5;
        run := Run(s0, s1, s2, s3, s4, State(fs.dirs, fs.files, operationsWerePerformed),
                   Report(ok1, failed1), Report(ok2, failed2), Report(ok3, failed3), Report(ok4, failed4), Report(ok5, failed5), false);
      }
      SessionProof.Sequence(useArchiving, currentSessionId, fs.sha256, run);
    }

    /**
     * The end of PerformSync once the phases ran without throwing: ClenupFiles, and the
     * session's result, stated against the filesystem (dA, fA) before the session folder was
     * created and the session logs `logs` before the session log was.
     */
    method CloseSession(ghost dA: set<Loc>, ghost fA: map<Loc, Bytes>, ghost logs: set<string>, success: bool) returns (r: SyncOutcome)
      requires fs.Valid() && WellFormed(dA, fA) && fs.sessionLogs == logs + {currentSessionId}
      requires SessionProof.Session(useArchiving, currentSessionId, fs.sha256, State(dA + {SessionArchive()}, fA, false),
                                    State(fs.dirs, fs.files, operationsWerePerformed), success)
      modifies fs
      ensures fs.Valid() && fs.files == old(fs.files) && (fs.dirs == old(fs.dirs) || fs.dirs == old(fs.dirs) - {SessionArchive()})
      ensures r.Completed? ==> r.success == success
      ensures fs.sessionLogs == if operationsWerePerformed then logs + {currentSessionId} else logs - {currentSessionId}
      ensures fs.Tree(Source) == View(dA, fA, Source)
      ensures useArchiving ==> Keeps(fA, currentSessionId, fs.files)
      ensures r == Completed(true) ==> Mirrors(fs.Tree(Source), fs.Tree(Replica), fs.sha256)
      ensures Mirrors(View(dA, fA, Source), View(dA, fA, Replica), fs.sha256) ==>
                fs.Tree(Replica) == View(dA, fA, Replica) && !operationsWerePerformed && r != Completed(false)
      ensures r == Completed(true) ==> (operationsWerePerformed <==> !Mirrors(View(dA, fA, Source), View(dA, fA, Replica), fs.sha256))
      ensures r.Completed? ==> (fs.IsDir(SessionArchive()) <==> !NoChildren(fs.dirs, fs.files, SessionArchive()))
      ensures !useArchiving && r.Completed? && !IsDirIn(dA, SessionArchive()) ==> fs.Tree(Archive) == View(dA, fA, Archive)
      ensures Mirrors(View(dA, fA, Source), View(dA, fA, Replica), fs.sha256) && r.Completed? && !IsDirIn(dA, SessionArchive()) ==>
                fs.dirs == dA && fs.files == fA
    {
      ghost var d5, f5, g5 := fs.dirs, fs.files, operationsWerePerformed;
      SessionProof.AroundSession(useArchiving, currentSessionId, fs.sha256, dA, fA, d5, f5, d5, g5, success);
      if SessionArchive() !in dA && (!useArchiving || Mirrors(View(dA, fA, Source), View(dA, fA, Replica), fs.sha256)) {
        SessionProof.LeavesNoTrace(currentSessionId, dA, fA, d5, f5);
      }
      var cleanupThrew := CleanupFiles();
      SessionProof.AroundSession(useArchiving, currentSessionId, fs.sha256, dA, fA, d5, f5, fs.dirs, g5, success);
      if cleanupThrew {
        r := Threw;
      } else {
        SessionProof.ClearedAway(SessionArchive(), d5, f5, fs.dirs);
        r := Completed(success);
      }
    }

    /**
     * SetupSyncFiles: names the session after `now`, creates its folder in the archive (the
     * session id is a single path segment, so nothing else is created) and its log.
     */
    method SetupSyncFiles(now: Timestamp) returns (threw: bool)
      requires fs.Valid() && now.Valid()
      modifies this`currentSessionId, fs
      ensures fs.Valid() && currentSessionId == SessionId(now)
      ensures fs.files == old(fs.files)
      ensures threw ==> fs.dirs == old(fs.dirs) && fs.sessionLogs == old(fs.sessionLogs)
      ensures !threw ==> fs.dirs == old(fs.dirs) + {SessionArchive()} && fs.sessionLogs == old(fs.sessionLogs) + {currentSessionId}
      ensures SessionArchive() in old(fs.files) ==> threw
    {
      currentSessionId := SessionId(now);
      assert Ancestry(SessionArchive()) == {SessionArchive()} by {
        forall a | a in Ancestry(SessionArchive()) ensures a == SessionArchive() {
          assert |a.path| == 1 && a.path[0] == currentSessionId;
        }
      }
      var created := fs.CreateDirectory(SessionArchive());
      if !created {
        return true;
      }
      fs.CreateSessionLog(currentSessionId);
      threw := false;
    }

    /**
     * ClenupFiles: the session log is deleted when no operation was performed; the session
     * folder is removed with `Directory.Delete` when it has neither subdirectories nor files,
     * and listing it throws when it no longer exists.
     */
    method CleanupFiles() returns (threw: bool)
      requires fs.Valid()
      modifies fs
      ensures fs.Valid() && fs.files == old(fs.files)
      ensures fs.sessionLogs == if operationsWerePerformed then old(fs.sessionLogs) else old(fs.sessionLogs) - {currentSessionId}
      ensures !old(fs.IsDir(SessionArchive())) ==> threw && fs.dirs == old(fs.dirs)
      ensures old(fs.IsDir(SessionArchive())) && !NoChildren(old(fs.dirs), old(fs.files), SessionArchive()) ==>
                !threw && fs.dirs == old(fs.dirs)
      ensures old(fs.IsDir(SessionArchive())) && NoChildren(old(fs.dirs), old(fs.files), SessionArchive()) ==>
                fs.dirs == if threw then old(fs.dirs) else old(fs.dirs) - {SessionArchive()}
    {
      if !operationsWerePerformed {
        fs.DeleteSessionLog(currentSessionId);
      }
      var subdirs := fs.GetTopDirectories(SessionArchive());
      if subdirs.None? {
        return true;
      }
      if subdirs.value == {} {
        var topFiles := fs.GetTopFiles(SessionArchive());
        if topFiles.value == {} {
          assert NoChildren(fs.dirs, fs.files, SessionArchive());
          EmptyDirHoldsNothing(fs.dirs, fs.files, SessionArchive());
          ghost var d, f := fs.dirs, fs.files;
          var deleted := fs.DeleteDirectory(SessionArchive());
          if !deleted {
            return true;
          }
          assert fs.files == f;
          assert fs.dirs == d - {SessionArchive()};
        } else {
          var n :| n in topFiles.value;
        }
      } else {
        var n :| n in subdirs.value;
      }
      threw := false;
    }

    /**
     * One entry of DeleteOverheadDirectoriesFromTarget's listing: a replica directory that
     * still exists and has no source directory at its path is archived with its subtree or
     * deleted, and the outcome is reported to `status`.
     */
    method HandleOverheadDirectory(q: Path, status: OperationStatus) returns (ghost attempted: bool, ghost done: bool)
      requires fs.Valid() && status.Valid()
      modifies this`operationsWerePerformed, fs, status
      ensures fs.Valid() && status.Valid() && fs.sessionLogs == old(fs.sessionLogs) && currentSessionId == old(currentSessionId)
      ensures OverheadDirsProof.Step(useArchiving, currentSessionId, q, old(fs.dirs), old(fs.files), fs.dirs, fs.files, attempted, done)
      ensures status.Success() == (old(status.Success()) && done)
      ensures operationsWerePerformed == (old(operationsWerePerformed) || attempted)
    {
      attempted, done := false, true;
      if !fs.IsDir(Loc(Replica, q)) {
        return;
      }
      if !fs.IsDir(Loc(Source, q)) {
        attempted := true;
        var removed;
        if useArchiving {
          removed := fs.MoveDirectory(Loc(Replica, q), Archived(currentSessionId, q));
        } else {
          removed := fs.DeleteDirectory(Loc(Replica, q));
        }
        status.AssertTrue(removed);
        operationsWerePerformed := true;
        done := removed;
      }
    }

    /**
     * DeleteOverheadDirectoriesFromTarget: every replica directory with no source directory at
     * its path is moved with its subtree to the session archive (archiving) or deleted. The
     * listing is walked shallowest first, as the breadth-first enumeration of .NET yields it, so
     * an entry removed along with an ancestor is found missing and skipped.
     */
    method DeleteOverheadDirectoriesFromTarget() returns (ok: bool, ghost failed: set<Path>)
      requires fs.Valid()
      modifies this`operationsWerePerformed, fs
      ensures fs.Valid() && fs.sessionLogs == old(fs.sessionLogs) && currentSessionId == old(currentSessionId)
      ensures PrunedDirs(useArchiving, currentSessionId, State(old(fs.dirs), old(fs.files), old(operationsWerePerformed)), State(fs.dirs, fs.files, operationsWerePerformed), Report(ok, failed))
    {
      ghost var d0, f0 := fs.dirs, fs.files;
      var listing := fs.GetDirectories(Replica);
      var todo := listing;
      var status := new OperationStatus();
      failed := {};
      OverheadDirsProof.Init(useArchiving, currentSessionId, d0, f0, listing, operationsWerePerformed);
      while todo != {}
        invariant fs.Valid() && status.Valid()
        invariant fs.sessionLogs == old(fs.sessionLogs) && currentSessionId == old(currentSessionId)
        invariant OverheadDirsProof.Inv(useArchiving, currentSessionId, d0, f0, listing, todo, fs.dirs, fs.files,
                                        status.Success(), failed, operationsWerePerformed, old(operationsWerePerformed))
        decreases todo
      {
        ghost var shallowest := Shallowest(todo);
        var q :| q in todo && forall e :: e in todo ==> |q| <= |e|;
        ghost var d1, f1, success, performed := fs.dirs, fs.files, status.Success(), operationsWerePerformed;
        ghost var attempted, done := HandleOverheadDirectory(q, status);
        OverheadDirsProof.StepKeepsInv(useArchiving, currentSessionId, d0, f0, listing, todo, q, d1, f1, success, failed,
                                       performed, old(operationsWerePerformed),
                                       fs.dirs, fs.files, attempted, done);
        failed := if attempted && !done then failed + {q} else failed;
        todo := todo - {q};
      }
      ok := status.Success();
      OverheadDirsProof.Final(useArchiving, currentSessionId, d0, f0, listing, fs.dirs, fs.files, ok, failed, operationsWerePerformed, old(operationsWerePerformed));
    }

    /** One entry of RecreateMissingDirectories' listing: a missing replica directory is created. */
    method HandleMissingDirectory(p: Path, status: OperationStatus) returns (ghost attempted: bool, ghost done: bool)
      requires fs.Valid() && status.Valid()
      modifies this`operationsWerePerformed, fs, status
      ensures fs.Valid() && status.Valid() && fs.sessionLogs == old(fs.sessionLogs) && currentSessionId == old(currentSessionId)
      ensures MissingDirsProof.Step(p, old(fs.dirs), old(fs.files), fs.dirs, fs.files, attempted, done)
      ensures status.Success() == (old(status.Success()) && done)
      ensures operationsWerePerformed == (old(operationsWerePerformed) || attempted)
    {
      attempted, done := false, true;
      if !fs.IsDir(Loc(Replica, p)) {
        attempted := true;
        var created := fs.CreateDirectory(Loc(Replica, p));
        status.AssertTrue(created);
        operationsWerePerformed := true;
        done := created;
      }
    }

    /**
     * RecreateMissingDirectories: every source directory missing from the replica is created
     * there; the replica gains no directory the source does not have.
     */
    method RecreateMissingDirectories() returns (ok: bool, ghost failed: set<Path>)
      requires fs.Valid()
      modifies this`operationsWerePerformed, fs
      ensures fs.Valid() && fs.sessionLogs == old(fs.sessionLogs) && currentSessionId == old(currentSessionId)
      ensures RecreatedDirs(useArchiving, State(old(fs.dirs), old(fs.files), old(operationsWerePerformed)), State(fs.dirs, fs.files, operationsWerePerformed), Report(ok, failed))
    {
      ghost var d0, f0 := fs.dirs, fs.files;
      var listing := fs.GetDirectories(Source);
      var todo := listing;
      var status := new OperationStatus();
      failed := {};
      MissingDirsProof.Init(d0, f0, listing, operationsWerePerformed);
      while todo != {}
        invariant fs.Valid() && status.Valid()
        invariant fs.sessionLogs == old(fs.sessionLogs) && currentSessionId == old(currentSessionId)
        invariant MissingDirsProof.Inv(d0, f0, listing, todo, fs.dirs, fs.files,
                                       status.Success(), failed, operationsWerePerformed, old(operationsWerePerformed))
        decreases todo
      {
        var p :| p in todo;
        ghost var d1, f1, success, performed := fs.dirs, fs.files, status.Success(), operationsWerePerformed;
        ghost var attempted, done := HandleMissingDirectory(p, status);
        MissingDirsProof.StepKeepsInv(d0, f0, listing, todo, p, d1, f1, success, failed, performed, old(operationsWerePerformed),
                                      fs.dirs, fs.files, attempted, done);
        failed := if attempted && !done then failed + {p} else failed;
        todo := todo - {p};
      }
      ok := status.Success();
      MissingDirsProof.Final(useArchiving, d0, f0, listing, fs.dirs, fs.files, ok, failed, operationsWerePerformed, old(operationsWerePerformed));
    }

    /**
     * One entry of RemoveOverheadFiles' listing: the replica file at `p` is archived or
     * deleted when the source has no file at `p`, and the outcome is reported to `status`.
     */
    method HandleOverheadFile(p: Path, status: OperationStatus) returns (ghost attempted: bool, ghost done: bool)
      requires fs.Valid() && status.Valid() && Loc(Replica, p) in fs.files
      modifies this`operationsWerePerformed, fs, status
      ensures fs.Valid() && status.Valid() && fs.sessionLogs == old(fs.sessionLogs) && currentSessionId == old(currentSessionId)
      ensures OverheadFilesProof.Step(useArchiving, currentSessionId, p, old(fs.dirs), old(fs.files), fs.dirs, fs.files, attempted, done)
      ensures status.Success() == (old(status.Success()) && (!attempted || done))
      ensures operationsWerePerformed == (old(operationsWerePerformed) || attempted)
    {
      attempted := Loc(Source, p) !in fs.files;
      done := true;
      if Loc(Source, p) !in fs.files {
        var moved;
        if useArchiving {
          moved := fs.MoveFile(Loc(Replica, p), Archived(currentSessionId, p));
        } else {
          moved := fs.DeleteFile(Loc(Replica, p));
        }
        status.AssertTrue(moved);
        operationsWerePerformed := true;
        done := moved;
      }
    }

    /**
     * RemoveOverheadFiles: every replica file with no source file at its path is moved to the
     * session archive (archiving) or deleted.
     */
    method RemoveOverheadFiles() returns (ok: bool, ghost failed: set<Path>)
      requires fs.Valid()
      modifies this`operationsWerePerformed, fs
      ensures fs.Valid() && fs.sessionLogs == old(fs.sessionLogs) && currentSessionId == old(currentSessionId)
      ensures RemovedFiles(useArchiving, currentSessionId, State(old(fs.dirs), old(fs.files), old(operationsWerePerformed)), State(fs.dirs, fs.files, operationsWerePerformed), Report(ok, failed))
    {
      ghost var d0, f0 := fs.dirs, fs.files;
      var listing := fs.GetFiles(Replica);
      var todo := listing;
      var status := new OperationStatus();
      failed := {};
      OverheadFilesProof.Init(useArchiving, currentSessionId, d0, f0, listing, operationsWerePerformed);
      while todo != {}
        invariant fs.Valid() && status.Valid()
        invariant fs.sessionLogs == old(fs.sessionLogs) && currentSessionId == old(currentSessionId)
        invariant OverheadFilesProof.Inv(useArchiving, currentSessionId, d0, f0, listing, todo, fs.dirs, fs.files,
                                         status.Success(), failed, operationsWerePerformed, old(operationsWerePerformed))
        decreases todo
      {
        var p :| p in todo;
        ghost var d1, f1, success, performed := fs.dirs, fs.files, status.Success(), operationsWerePerformed;
        ghost var attempted, done := HandleOverheadFile(p, status);
        OverheadFilesProof.StepKeepsInv(useArchiving, currentSessionId, d0, f0, listing, todo, p, d1, f1, success, failed,
                                        performed, old(operationsWerePerformed),
                                        fs.dirs, fs.files, attempted, done);
        failed := if attempted && !done then failed + {p} else failed;
        todo := todo - {p};
      }
      ok := status.Success();
      OverheadFilesProof.Final(useArchiving, currentSessionId, d0, f0, listing, fs.dirs, fs.files, ok, failed, operationsWerePerformed, old(operationsWerePerformed));
    }

    /**
     * One entry of ReplaceEditedFiles' listing: the replica file and its source counterpart are
     * hashed (`threw` when the counterpart is missing, as `File.OpenRead` throws); on a mismatch
     * the replica file is archived and replaced by a copy of the source file, or deleted. A
     * failed archive move fails the status and skips the copy without setting the flag.
     */
    method HandleEditedFile(p: Path, status: OperationStatus) returns (threw: bool, ghost attempted: bool, ghost mutated: bool, ghost done: bool)
      requires fs.Valid() && status.Valid() && Loc(Replica, p) in fs.files
      modifies this`operationsWerePerformed, fs, status
      ensures fs.Valid() && status.Valid() && fs.sessionLogs == old(fs.sessionLogs) && currentSessionId == old(currentSessionId)
      ensures EditedFilesProof.Step(useArchiving, currentSessionId, fs.sha256, p, old(fs.dirs), old(fs.files), fs.dirs, fs.files,
                                    threw, attempted, mutated, done)
      ensures status.Success() == (old(status.Success()) && done)
      ensures operationsWerePerformed == (old(operationsWerePerformed) || mutated)
    {
      attempted, mutated, done := false, false, true;
      var targetHash := fs.GetFileHash(Loc(Replica, p));
      var sourceHash := fs.GetFileHash(Loc(Source, p));
      if targetHash.None? || sourceHash.None? {
        return true, attempted, mutated, done;
      }
      threw := false;
      RenderInjective(fs.sha256(fs.files[Loc(Replica, p)]), fs.sha256(fs.files[Loc(Source, p)]));
      if targetHash.value != sourceHash.value {
        attempted := true;
        if useArchiving {
          var moved := fs.MoveFile(Loc(Replica, p), Archived(currentSessionId, p));
          if !moved {
            status.Fail();
            done := false;
            return;
          }
          var copied := fs.CopyFile(Loc(Source, p), Loc(Replica, p));
          status.AssertTrue(copied);
          operationsWerePerformed := true;
          mutated, done := true, copied;
        } else {
          var deleted := fs.DeleteFile(Loc(Replica, p));
          status.AssertTrue(deleted);
          operationsWerePerformed := true;
          mutated, done := true, deleted;
        }
      }
    }

    /**
     * ReplaceEditedFiles: every replica file whose digest differs from its source counterpart's
     * is archived and replaced by a copy of the source file, or deleted; files that match are
     * untouched. `threw` stands for the exception a replica file without a source counterpart
     * raises.
     */
    method ReplaceEditedFiles() returns (threw: bool, ok: bool, ghost failed: set<Path>)
      requires fs.Valid()
      modifies this`operationsWerePerformed, fs
      ensures fs.Valid() && fs.sessionLogs == old(fs.sessionLogs) && currentSessionId == old(currentSessionId)
      ensures ReplacedFiles(useArchiving, currentSessionId, fs.sha256, State(old(fs.dirs), old(fs.files), old(operationsWerePerformed)), State(fs.dirs, fs.files, operationsWerePerformed), threw, Report(ok, failed))
    {
      ghost var d0, f0 := fs.dirs, fs.files;
      var listing := fs.GetFiles(Replica);
      var todo := listing;
      var status := new OperationStatus();
      failed := {};
      EditedFilesProof.Init(useArchiving, currentSessionId, fs.sha256, d0, f0, listing, operationsWerePerformed);
      while todo != {}
        invariant fs.Valid() && status.Valid()
        invariant fs.sessionLogs == old(fs.sessionLogs) && currentSessionId == old(currentSessionId)
        invariant EditedFilesProof.Inv(useArchiving, currentSessionId, fs.sha256, d0, f0, listing, todo, fs.dirs, fs.files,
                                       status.Success(), failed, operationsWerePerformed, old(operationsWerePerformed))
        decreases todo
      {
        var p :| p in todo;
        ghost var d1, f1, success, performed := fs.dirs, fs.files, status.Success(), operationsWerePerformed;
        var t;
        ghost var attempted, mutated, done;
        t, attempted, mutated, done := HandleEditedFile(p, status);
        if t {
          EditedFilesProof.Thrown(useArchiving, currentSessionId, fs.sha256, d0, f0, listing, todo, p, fs.dirs, fs.files,
                                  success, failed, performed, old(operationsWerePerformed));
          return true, false, failed;
        }
        EditedFilesProof.StepKeepsInv(useArchiving, currentSessionId, fs.sha256, d0, f0, listing, todo, p, d1, f1, success, failed,
                                      performed, old(operationsWerePerformed), fs.dirs, fs.files, attempted, mutated, done);
        failed := if attempted && !done then failed + {p} else failed;
        todo := todo - {p};
      }
      threw, ok := false, status.Success();
      EditedFilesProof.Final(useArchiving, currentSessionId, fs.sha256, d0, f0, listing, fs.dirs, fs.files, ok, failed,
                             operationsWerePerformed, old(operationsWerePerformed));
    }

    /** One entry of ImportMissingFiles' listing: a source file missing from the replica is copied there. */
    method HandleMissingFile(p: Path, status: OperationStatus) returns (ghost attempted: bool, ghost done: bool)
      requires fs.Valid() && status.Valid()
      modifies this`operationsWerePerformed, fs, status
      ensures fs.Valid() && status.Valid() && fs.sessionLogs == old(fs.sessionLogs) && currentSessionId == old(currentSessionId)
      ensures MissingFilesProof.Step(p, old(fs.dirs), old(fs.files), fs.dirs, fs.files, attempted, done)
      ensures status.Success() == (old(status.Success()) && done)
      ensures operationsWerePerformed == (old(operationsWerePerformed) || attempted)
    {
      attempted, done := false, true;
      if Loc(Replica, p) !in fs.files {
        attempted := true;
        var copied := fs.CopyFile(Loc(Source, p), Loc(Replica, p));
        status.AssertTrue(copied);
        operationsWerePerformed := true;
        done := copied;
      }
    }

    /**
     * ImportMissingFiles: every source file missing from the replica is copied there; replica
     * files already present are untouched.
     */
    method ImportMissingFiles() returns (ok: bool, ghost failed: set<Path>)
      requires fs.Valid()
      modifies this`operationsWerePerformed, fs
      ensures fs.Valid() && fs.sessionLogs == old(fs.sessionLogs) && currentSessionId == old(currentSessionId)
      ensures ImportedFiles(useArchiving, State(old(fs.dirs), old(fs.files), old(operationsWerePerformed)), State(fs.dirs, fs.files, operationsWerePerformed), Report(ok, failed))
    {
      ghost var d0, f0 := fs.dirs, fs.files;
      var listing := fs.GetFiles(Source);
      var todo := listing;
      var status := new OperationStatus();
      failed := {};
      MissingFilesProof.Init(d0, f0, listing, operationsWerePerformed);
      while todo != {}
        invariant fs.Valid() && status.Valid()
        invariant fs.sessionLogs == old(fs.sessionLogs) && currentSessionId == old(currentSessionId)
        invariant MissingFilesProof.Inv(d0, f0, listing, todo, fs.dirs, fs.files,
                                        status.Success(), failed, operationsWerePerformed, old(operationsWerePerformed))
        decreases todo
      {
        var p :| p in todo;
        ghost var d1, f1, success, performed := fs.dirs, fs.files, status.Success(), operationsWerePerformed;
        ghost var attempted, done := HandleMissingFile(p, status);
        MissingFilesProof.StepKeepsInv(d0, f0, listing, todo, p, d1, f1, success, failed, performed, old(operationsWerePerformed),
                                       fs.dirs, fs.files, attempted, done);
        failed := if attempted && !done then failed + {p} else failed;
        todo := todo - {p};
      }
      ok := status.Success();
      MissingFilesProof.Final(useArchiving, d0, f0, listing, fs.dirs, fs.files, ok, failed, operationsWerePerformed, old(operationsWerePerformed));
    }
  }
}
