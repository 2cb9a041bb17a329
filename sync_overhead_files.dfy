/** The reasoning behind RemoveOverheadFiles, over filesystem states as values. */
module OverheadFilesProof {
  import opened FileHash
  import opened FileSystem
  import opened SyncFacts
  import opened Phases

  /**
   * What handling the listing entry `p` does, from state (d1, f1) to state (d2, f2): when the
   * source has no file at `p`, the replica file is moved to the session archive (archiving) or
   * deleted, and `done` tells whether that happened.
   */
  ghost predicate Step(archiving: bool, sid: string, p: Path, d1: set<Loc>, f1: map<Loc, Bytes>, d2: set<Loc>, f2: map<Loc, Bytes>, attempted: bool, done: bool) {
    var src, dst := Loc(Replica, p), Archived(sid, p);
    && src in f1
    && attempted == (Loc(Source, p) !in f1)
    && if !attempted then done && d2 == d1 && f2 == f1
       else if archiving then
         && (d2 == d1 || d2 == d1 + Ancestry(Parent(dst)))
         && (done ==> dst !in f1)
         && f2 == if done then f1 - {src} + map[dst := f1[src]] else f1
       else
         d2 == d1 && f2 == if done then f1 - {src} else f1
  }

  /** The loop invariant: `todo` is the part of the listing not yet handled. */
  ghost predicate Inv(archiving: bool, sid: string, d0: set<Loc>, f0: map<Loc, Bytes>, listing: set<Path>, todo: set<Path>,
                      d: set<Loc>, f: map<Loc, Bytes>, success: bool, failed: set<Path>, performed: bool, performed0: bool) {
    && Frame(archiving, sid, d0, f0, listing, todo, d, f)
    && Progress(f0, listing, todo, d0, d, f, success, failed, performed, performed0)
  }

  /** What the loop may change: only replica files go, into the archive when archiving. */
  ghost predicate Frame(archiving: bool, sid: string, d0: set<Loc>, f0: map<Loc, Bytes>, listing: set<Path>, todo: set<Path>,
                        d: set<Loc>, f: map<Loc, Bytes>) {
    && (forall p :: p in listing <==> Loc(Replica, p) in f0)
    && todo <= listing
    && Outside(archiving, d0, f0, d, f)
    && ReplicaDirsSame(d0, d)
    && ReplicaFilesShrink(f0, f)
    && (archiving ==> Keeps(f0, sid, f))
  }

  /**
   * What the handled entries have achieved: those without a source file are gone unless their
   * removal failed (`failed`), and what the success and mutation flags say about them.
   */
  ghost predicate Progress(f0: map<Loc, Bytes>, listing: set<Path>, todo: set<Path>,
                           d0: set<Loc>, d: set<Loc>, f: map<Loc, Bytes>, success: bool, failed: set<Path>, performed: bool, performed0: bool) {
    && (forall p :: p in todo ==> Loc(Replica, p) in f)
    && (forall p :: p in listing && Loc(Source, p) in f0 ==> Loc(Replica, p) in f)
    && failed <= listing - todo
    && (forall p :: p in failed ==> Loc(Source, p) !in f0 && Loc(Replica, p) in f)
    && (forall p :: p in listing - todo && Loc(Source, p) !in f0 && p !in failed ==> Loc(Replica, p) !in f)
    && (success <==> failed == {})
    && (performed0 ==> performed)
    && (performed ==> performed0 || exists p :: p in listing && Loc(Source, p) !in f0)
    && (!performed ==> d == d0 && f == f0 && forall p :: p in listing - todo ==> Loc(Source, p) in f0)
  }

  lemma Init(archiving: bool, sid: string, d0: set<Loc>, f0: map<Loc, Bytes>, listing: set<Path>, performed0: bool)
    requires forall p :: p in listing <==> Loc(Replica, p) in f0
    ensures Inv(archiving, sid, d0, f0, listing, listing, d0, f0, true, {}, performed0, performed0)
  {
  }

  /** The consequences of `Step` that the invariant needs. */
  ghost predicate Effect(archiving: bool, sid: string, p: Path, d1: set<Loc>, f1: map<Loc, Bytes>, d2: set<Loc>, f2: map<Loc, Bytes>, attempted: bool, done: bool) {
    && Loc(Replica, p) in f1
    && (attempted <==> Loc(Source, p) !in f1)
    && (!attempted ==> done && d2 == d1 && f2 == f1)
    && Outside(archiving, d1, f1, d2, f2)
    && ReplicaDirsSame(d1, d2)
    && ReplicaFilesShrink(f1, f2)
    && (forall l: Loc :: l.root == Replica && l != Loc(Replica, p) ==> (l in f2 <==> l in f1))
    && (attempted ==> (done <==> Loc(Replica, p) !in f2))
    && (archiving && attempted && done ==> Archived(sid, p) in f2 && f2[Archived(sid, p)] == f1[Loc(Replica, p)])
  }

  lemma StepEffect(archiving: bool, sid: string, p: Path, d1: set<Loc>, f1: map<Loc, Bytes>, d2: set<Loc>, f2: map<Loc, Bytes>, attempted: bool, done: bool)
    requires Step(archiving, sid, p, d1, f1, d2, f2, attempted, done)
    ensures Effect(archiving, sid, p, d1, f1, d2, f2, attempted, done)
  {
  }

  lemma StepKeepsInv(archiving: bool, sid: string, d0: set<Loc>, f0: map<Loc, Bytes>, listing: set<Path>, todo: set<Path>, p: Path,
                     d1: set<Loc>, f1: map<Loc, Bytes>, success: bool, failed: set<Path>, performed: bool, performed0: bool,
                     d2: set<Loc>, f2: map<Loc, Bytes>, attempted: bool, done: bool)
    requires Inv(archiving, sid, d0, f0, listing, todo, d1, f1, success, failed, performed, performed0)
    requires p in todo
    requires Step(archiving, sid, p, d1, f1, d2, f2, attempted, done)
    ensures Inv(archiving, sid, d0, f0, listing, todo - {p}, d2, f2, success && (!attempted || done),
                if attempted && !done then failed + {p} else failed, performed || attempted, performed0)
  {
    StepEffect(archiving, sid, p, d1, f1, d2, f2, attempted, done);
    EffectKeepsInv(archiving, sid, d0, f0, listing, todo, p, d1, f1, success, failed, performed, performed0, d2, f2, attempted, done);
  }

  lemma EffectKeepsInv(archiving: bool, sid: string, d0: set<Loc>, f0: map<Loc, Bytes>, listing: set<Path>, todo: set<Path>, p: Path,
                       d1: set<Loc>, f1: map<Loc, Bytes>, success: bool, failed: set<Path>, performed: bool, performed0: bool,
                       d2: set<Loc>, f2: map<Loc, Bytes>, attempted: bool, done: bool)
    requires Inv(archiving, sid, d0, f0, listing, todo, d1, f1, success, failed, performed, performed0)
    requires p in todo
    requires Effect(archiving, sid, p, d1, f1, d2, f2, attempted, done)
    ensures Inv(archiving, sid, d0, f0, listing, todo - {p}, d2, f2, success && (!attempted || done),
                if attempted && !done then failed + {p} else failed, performed || attempted, performed0)
  {
    FrameKept(archiving, sid, d0, f0, listing, todo, p, d1, f1, d2, f2, attempted, done);
    ProgressKept(archiving, sid, d0, f0, listing, todo, p, d1, f1, success, failed, performed, performed0, d2, f2, attempted, done);
  }

  lemma FrameKept(archiving: bool, sid: string, d0: set<Loc>, f0: map<Loc, Bytes>, listing: set<Path>, todo: set<Path>, p: Path,
                  d1: set<Loc>, f1: map<Loc, Bytes>, d2: set<Loc>, f2: map<Loc, Bytes>, attempted: bool, done: bool)
    requires Frame(archiving, sid, d0, f0, listing, todo, d1, f1)
    requires p in todo
    requires Effect(archiving, sid, p, d1, f1, d2, f2, attempted, done)
    ensures Frame(archiving, sid, d0, f0, listing, todo - {p}, d2, f2)
  {
    OutsideTrans(archiving, d0, f0, d1, f1, d2, f2);
    if archiving {
      EffectKeeps(sid, f0, p, d1, f1, d2, f2, attempted, done);
    }
  }

  lemma ProgressKept(archiving: bool, sid: string, d0: set<Loc>, f0: map<Loc, Bytes>, listing: set<Path>, todo: set<Path>, p: Path,
                     d1: set<Loc>, f1: map<Loc, Bytes>, success: bool, failed: set<Path>, performed: bool, performed0: bool,
                     d2: set<Loc>, f2: map<Loc, Bytes>, attempted: bool, done: bool)
    requires Inv(archiving, sid, d0, f0, listing, todo, d1, f1, success, failed, performed, performed0)
    requires p in todo
    requires Effect(archiving, sid, p, d1, f1, d2, f2, attempted, done)
    ensures Progress(f0, listing, todo - {p}, d0, d2, f2, success && (!attempted || done),
                     if attempted && !done then failed + {p} else failed, performed || attempted, performed0)
  {
    assert attempted <==> Loc(Source, p) !in f0;
  }

  /** Every replica file of the starting state stays in place or sits in the archive, unchanged. */
  lemma EffectKeeps(sid: string, f0: map<Loc, Bytes>, p: Path, d1: set<Loc>, f1: map<Loc, Bytes>, d2: set<Loc>, f2: map<Loc, Bytes>, attempted: bool, done: bool)
    requires Keeps(f0, sid, f1) && ReplicaFilesShrink(f0, f1)
    requires Effect(true, sid, p, d1, f1, d2, f2, attempted, done)
    ensures Keeps(f0, sid, f2)
  {
    forall q | Loc(Replica, q) in f0
      ensures (Loc(Replica, q) in f2 && f2[Loc(Replica, q)] == f0[Loc(Replica, q)]) ||
              (Archived(sid, q) in f2 && f2[Archived(sid, q)] == f0[Loc(Replica, q)])
    {
      if q != p && Loc(Replica, q) in f1 && f1[Loc(Replica, q)] == f0[Loc(Replica, q)] {
        assert Loc(Replica, q) in f2;
      }
    }
  }

  lemma Final(archiving: bool, sid: string, d0: set<Loc>, f0: map<Loc, Bytes>, listing: set<Path>,
              d: set<Loc>, f: map<Loc, Bytes>, success: bool, failed: set<Path>, performed: bool, performed0: bool)
    requires Inv(archiving, sid, d0, f0, listing, {}, d, f, success, failed, performed, performed0)
    ensures RemovedFiles(archiving, sid, State(d0, f0, performed0), State(d, f, performed), Report(success, failed))
  {
  }
}
