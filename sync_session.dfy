/**
 * A whole sync session: the five phases composed, and then seen through the session folder
 * that SetupSyncFiles creates in the archive before them and ClenupFiles removes after them
 * when it stayed empty.
 */
module SessionProof {
  import opened FileHash
  import opened FileSystem
  import opened SyncFacts
  import opened Phases

  /**
   * The phases of a session, from `s0` to `s1`, with `success` the conjunction of their
   * results: the source is untouched and the archive only grows (untouched without
   * archiving); with archiving no replica content is lost; on success the replica mirrors the
   * source; when the flag starts false and the replica already mirrors the source, the session
   * succeeds and changes nothing, the flag included; and on success from a false flag, the
   * flag ends up set exactly when the replica did not mirror the source.
   */
  ghost predicate Session(archiving: bool, sid: string, sha: Bytes -> Digest, s0: State, s1: State, success: bool) {
    && Outside(archiving, s0.dirs, s0.files, s1.dirs, s1.files)
    && (archiving ==> Keeps(s0.files, sid, s1.files))
    && (success ==> MirrorsAt(sha, s1.dirs, s1.files))
    && (!s0.flag && MirrorsAt(sha, s0.dirs, s0.files) ==> success && s1 == s0)
    && (!s0.flag && success ==> (s1.flag <==> !MirrorsAt(sha, s0.dirs, s0.files)))
  }

  /**
   * The phases run in order make a session whose success is the conjunction of their results
   * and which fails when ReplaceEditedFiles throws; that cannot happen to a replica which
   * mirrored the source from a false flag.
   */
  lemma Sequence(archiving: bool, sid: string, sha: Bytes -> Digest, run: Run)
    requires RanPhases(archiving, sid, sha, run)
    ensures Session(archiving, sid, sha, run.start, run.imported, run.Succeeded())
    ensures run.stopped ==> run.start.flag || !MirrorsAt(sha, run.start.dirs, run.start.files)
  {
    Preserved(archiving, sid, sha, run);
    if run.Succeeded() {
      Converges(archiving, sid, sha, run);
    }
    if !run.start.flag && MirrorsAt(sha, run.start.dirs, run.start.files) {
      Idle(archiving, sid, sha, run);
    }
    if !run.start.flag && run.Succeeded() && !run.imported.flag {
      NothingToDo(archiving, sid, sha, run);
    }
  }

  /** Adding or removing an archive directory changes nothing under the other roots. */
  lemma ArchiveDirOnly(r: Root, d: set<Loc>, f: map<Loc, Bytes>, a: Loc)
    requires r != Archive && a.root == Archive
    ensures SameRoot(r, d, f, d + {a}, f) && SameRoot(r, d, f, d - {a}, f)
  {
  }

  /** Whether the replica mirrors the source depends only on those two roots. */
  lemma MirrorsOfRoots(sha: Bytes -> Digest, d0: set<Loc>, f0: map<Loc, Bytes>, d1: set<Loc>, f1: map<Loc, Bytes>)
    requires SameRoot(Source, d0, f0, d1, f1) && SameRoot(Replica, d0, f0, d1, f1)
    ensures MirrorsAt(sha, d0, f0) <==> MirrorsAt(sha, d1, f1)
  {
    MirrorsView(sha, d0, f0);
    MirrorsView(sha, d1, f1);
    SameRootView(Source, d0, f0, d1, f1);
    SameRootView(Replica, d0, f0, d1, f1);
  }

  /**
   * A session run between the creation of the session folder `SessionDir(sid)` (on top of
   * (dA, fA)) and the removal of that folder or not (`d6`), read as trees: the source tree is
   * unchanged; with archiving no replica content is lost; on success the replica tree mirrors
   * the source tree; a replica that mirrored the source is left as it was, with no flag set
   * and a successful result; and on success the flag is set exactly when it did not mirror
   * the source. The session folder is still there when the phases end.
   */
  lemma AroundSession(archiving: bool, sid: string, sha: Bytes -> Digest, dA: set<Loc>, fA: map<Loc, Bytes>,
                      d5: set<Loc>, f5: map<Loc, Bytes>, d6: set<Loc>, g5: bool, success: bool)
    requires Session(archiving, sid, sha, State(dA + {SessionDir(sid)}, fA, false), State(d5, f5, g5), success)
    requires d6 == d5 || d6 == d5 - {SessionDir(sid)}
    ensures SessionDir(sid) in d5
    ensures View(d6, f5, Source) == View(dA, fA, Source)
    ensures archiving ==> Keeps(fA, sid, f5)
    ensures success ==> Mirrors(View(d6, f5, Source), View(d6, f5, Replica), sha)
    ensures Mirrors(View(dA, fA, Source), View(dA, fA, Replica), sha) ==>
              success && !g5 && View(d6, f5, Replica) == View(dA, fA, Replica)
    ensures Mirrors(View(dA, fA, Source), View(dA, fA, Replica), sha) ==> d5 == dA + {SessionDir(sid)} && f5 == fA
    ensures success ==> (g5 <==> !Mirrors(View(dA, fA, Source), View(dA, fA, Replica), sha))
  {
    var sd := SessionDir(sid);
    var d0 := dA + {sd};
    assert sd in d0;
    ArchiveDirOnly(Source, dA, fA, sd);
    ArchiveDirOnly(Replica, dA, fA, sd);
    ArchiveDirOnly(Source, d5, f5, sd);
    ArchiveDirOnly(Replica, d5, f5, sd);
    assert SameRoot(Source, d5, f5, d6, f5) && SameRoot(Replica, d5, f5, d6, f5);
    SameRootTrans(Source, dA, fA, d0, fA, d5, f5);
    SameRootTrans(Source, dA, fA, d5, f5, d6, f5);
    SameRootView(Source, dA, fA, d6, f5);
    MirrorsOfRoots(sha, dA, fA, d0, fA);
    MirrorsOfRoots(sha, d5, f5, d6, f5);
    MirrorsView(sha, dA, fA);
    MirrorsView(sha, d6, f5);
    if MirrorsAt(sha, d0, fA) {
      SameRootTrans(Replica, dA, fA, d0, fA, d5, f5);
      SameRootTrans(Replica, dA, fA, d5, f5, d6, f5);
      SameRootView(Replica, dA, fA, d6, f5);
    }
  }

  /**
   * Without archiving, a session folder that did not exist before the session has nothing
   * in it afterwards, and removing it leaves the archive as it was.
   */
  lemma LeavesNoTrace(sid: string, dA: set<Loc>, fA: map<Loc, Bytes>, d5: set<Loc>, f5: map<Loc, Bytes>)
    requires WellFormed(dA, fA) && SessionDir(sid) !in dA
    requires SameRoot(Archive, dA + {SessionDir(sid)}, fA, d5, f5)
    ensures NoChildren(d5, f5, SessionDir(sid))
    ensures View(d5 - {SessionDir(sid)}, f5, Archive) == View(dA, fA, Archive)
  {
    var sd := SessionDir(sid);
    forall n ensures Loc(Archive, [sid, n]) !in dA && Loc(Archive, [sid, n]) !in fA {
      var c := Loc(Archive, [sid, n]);
      assert Parent(c) == sd;
    }
    assert NoChildren(d5, f5, sd) by {
      forall n ensures Loc(sd.root, sd.path + [n]) !in d5 && Loc(sd.root, sd.path + [n]) !in f5 {
        assert sd.path + [n] == [sid, n];
      }
    }
    assert SameRoot(Archive, dA, fA, d5 - {sd}, f5);
    SameRootView(Archive, dA, fA, d5 - {sd}, f5);
  }

  /**
   * After ClenupFiles, the session folder exists exactly when something is in it: it was
   * there when the phases ended, and it is removed exactly when it held nothing.
   */
  lemma ClearedAway(sd: Loc, d5: set<Loc>, f5: map<Loc, Bytes>, d6: set<Loc>)
    requires sd in d5 && sd.path != []
    requires NoChildren(d5, f5, sd) ==> d6 == d5 - {sd}
    requires !NoChildren(d5, f5, sd) ==> d6 == d5
    ensures IsDirIn(d6, sd) <==> !NoChildren(d6, f5, sd)
  {
    if NoChildren(d5, f5, sd) {
      assert NoChildren(d6, f5, sd);
    }
  }
}
