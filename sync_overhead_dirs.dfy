/** The reasoning behind DeleteOverheadDirectoriesFromTarget, over filesystem states as values. */
module OverheadDirsProof {
  import opened FileHash
  import opened FileSystem
  import opened SyncFacts
  import opened Phases

  /**
   * What handling the listing entry `q` does, from state (d1, f1) to state (d2, f2): when the
   * replica directory at `q` still exists and the source has no directory there, it is moved
   * with its subtree to the session archive (archiving) or deleted, and `done` tells whether
   * that happened.
   */
  ghost predicate Step(archiving: bool, sid: string, q: Path, d1: set<Loc>, f1: map<Loc, Bytes>, d2: set<Loc>, f2: map<Loc, Bytes>, attempted: bool, done: bool) {
    var src, dst := Loc(Replica, q), Archived(sid, q);
    && attempted == (src in d1 && Loc(Source, q) !in d1)
    && if !attempted then done && d2 == d1 && f2 == f1
       else if archiving then
         if done then
           && !IsDirIn(d1, dst) && dst !in f1
           && d2 == DirsMoved(d1 + Ancestry(Parent(dst)), src, dst) && f2 == FilesMoved(f1, src, dst)
         else
           f2 == f1 && (d2 == d1 || d2 == d1 + Ancestry(Parent(dst)))
       else
         if done then d2 == DirsWithout(d1, src) && f2 == FilesWithout(f1, src)
         else d2 == d1 && f2 == f1
  }

  /** The consequences of `Step` that the invariant needs. */
  ghost predicate Effect(archiving: bool, sid: string, q: Path, d1: set<Loc>, f1: map<Loc, Bytes>, d2: set<Loc>, f2: map<Loc, Bytes>, attempted: bool, done: bool) {
    var gone := attempted && done;
    && (attempted <==> Loc(Replica, q) in d1 && Loc(Source, q) !in d1)
    && (!attempted ==> done && d2 == d1 && f2 == f1)
    && Outside(archiving, d1, f1, d2, f2)
    && (forall l: Loc :: l.root == Replica ==> (l in d2 <==> l in d1 && !(gone && Within(l, Loc(Replica, q)))))
    && (forall l: Loc :: l.root == Replica ==> (l in f2 <==> l in f1 && !(gone && Within(l, Loc(Replica, q)))))
    && ReplicaFilesShrink(f1, f2)
    && (archiving && gone ==>
          forall p :: Loc(Replica, p) in f1 && q <= p ==> Archived(sid, p) in f2 && f2[Archived(sid, p)] == f1[Loc(Replica, p)])
  }

  lemma StepEffect(archiving: bool, sid: string, q: Path, d1: set<Loc>, f1: map<Loc, Bytes>, d2: set<Loc>, f2: map<Loc, Bytes>, attempted: bool, done: bool)
    requires WellFormed(d1, f1)
    requires Step(archiving, sid, q, d1, f1, d2, f2, attempted, done)
    ensures Effect(archiving, sid, q, d1, f1, d2, f2, attempted, done)
  {
    var src, dst := Loc(Replica, q), Archived(sid, q);
    if attempted && done {
      if archiving {
        ArchiveDirEffect(d1, f1, Ancestry(Parent(dst)), q, sid);
        ArchivedEffect(sid, q, d1, f1, d2, f2);
      } else {
        DeletedEffect(sid, q, d1, f1, d2, f2);
      }
    } else if attempted && archiving {
      assert forall a :: a in Ancestry(Parent(dst)) ==> a.root == Archive;
    }
  }

  lemma ArchivedEffect(sid: string, q: Path, d1: set<Loc>, f1: map<Loc, Bytes>, d2: set<Loc>, f2: map<Loc, Bytes>)
    requires Loc(Replica, q) in d1 && Loc(Source, q) !in d1
    requires SameRoot(Source, d1, f1, d2, f2) && GrowsIn(Archive, d1, f1, d2, f2)
    requires forall l: Loc :: l.root == Replica ==> (l in d2 <==> l in d1 && !Within(l, Loc(Replica, q)))
    requires forall l: Loc :: l.root == Replica ==> (l in f2 <==> l in f1 && !Within(l, Loc(Replica, q)))
    requires forall l: Loc :: l.root == Replica && l in f2 ==> f2[l] == f1[l]
    requires forall p :: Loc(Replica, p) in f1 && q <= p ==> Archived(sid, p) in f2 && f2[Archived(sid, p)] == f1[Loc(Replica, p)]
    ensures Effect(true, sid, q, d1, f1, d2, f2, true, true)
  {
  }

  lemma DeletedEffect(sid: string, q: Path, d1: set<Loc>, f1: map<Loc, Bytes>, d2: set<Loc>, f2: map<Loc, Bytes>)
    requires Loc(Replica, q) in d1 && Loc(Source, q) !in d1
    requires d2 == DirsWithout(d1, Loc(Replica, q)) && f2 == FilesWithout(f1, Loc(Replica, q))
    ensures Effect(false, sid, q, d1, f1, d2, f2, true, true)
  {
    DeleteDirEffect(d1, f1, q);
  }

  /** The loop invariant: `todo` is the part of the listing not yet handled, none of it shallower than what was. */
  ghost predicate Inv(archiving: bool, sid: string, d0: set<Loc>, f0: map<Loc, Bytes>, listing: set<Path>, todo: set<Path>,
                      d: set<Loc>, f: map<Loc, Bytes>, success: bool, failed: set<Path>, performed: bool, performed0: bool) {
    && Frame(archiving, sid, d0, f0, listing, todo, d, f)
    && Progress(d0, f0, listing, todo, d, f, success, failed, performed, performed0)
  }

  /** What the loop may change: only replica entries go, into the archive when archiving. */
  ghost predicate Frame(archiving: bool, sid: string, d0: set<Loc>, f0: map<Loc, Bytes>, listing: set<Path>, todo: set<Path>,
                        d: set<Loc>, f: map<Loc, Bytes>) {
    && (forall p :: p in listing <==> Loc(Replica, p) in d0)
    && todo <= listing
    && (forall x, y :: x in listing - todo && y in todo ==> |x| <= |y|)
    && Outside(archiving, d0, f0, d, f)
    && ReplicaDirsShrink(d0, d)
    && ReplicaFilesShrink(f0, f)
    && (archiving ==> Keeps(f0, sid, f))
  }

  /**
   * What the handled entries have achieved: those without a source directory are gone unless
   * their removal failed (`failed`), and what the success and mutation flags say about them.
   */
  ghost predicate Progress(d0: set<Loc>, f0: map<Loc, Bytes>, listing: set<Path>, todo: set<Path>,
                           d: set<Loc>, f: map<Loc, Bytes>, success: bool, failed: set<Path>, performed: bool, performed0: bool) {
    && (forall p :: p in listing && Loc(Source, p) in d0 ==> Loc(Replica, p) in d)
    && (forall p :: Loc(Replica, p) in f0 && Loc(Source, p) in f0 ==> Loc(Replica, p) in f)
    && failed <= listing - todo
    && (forall p :: p in failed ==> Loc(Source, p) !in d0 && Loc(Replica, p) in d)
    && (forall p :: p in listing - todo && Loc(Source, p) !in d0 && p !in failed ==> Loc(Replica, p) !in d)
    && (success <==> failed == {})
    && (performed0 ==> performed)
    && (performed ==> performed0 || !DirsCovered(Replica, Source, d0))
    && (!performed ==> d == d0 && f == f0 && forall p :: p in listing - todo ==> Loc(Source, p) in d0)
  }

  lemma Init(archiving: bool, sid: string, d0: set<Loc>, f0: map<Loc, Bytes>, listing: set<Path>, performed0: bool)
    requires forall p :: p in listing <==> Loc(Replica, p) in d0
    ensures Inv(archiving, sid, d0, f0, listing, listing, d0, f0, true, {}, performed0, performed0)
  {
  }

  lemma StepKeepsInv(archiving: bool, sid: string, d0: set<Loc>, f0: map<Loc, Bytes>, listing: set<Path>, todo: set<Path>, q: Path,
                     d1: set<Loc>, f1: map<Loc, Bytes>, success: bool, failed: set<Path>, performed: bool, performed0: bool,
                     d2: set<Loc>, f2: map<Loc, Bytes>, attempted: bool, done: bool)
    requires WellFormed(d0, f0) && WellFormed(d1, f1)
    requires Inv(archiving, sid, d0, f0, listing, todo, d1, f1, success, failed, performed, performed0)
    requires q in todo && forall e :: e in todo ==> |q| <= |e|
    requires Step(archiving, sid, q, d1, f1, d2, f2, attempted, done)
    ensures Inv(archiving, sid, d0, f0, listing, todo - {q}, d2, f2, success && done,
                if attempted && !done then failed + {q} else failed, performed || attempted, performed0)
  {
    StepEffect(archiving, sid, q, d1, f1, d2, f2, attempted, done);
    EffectKeepsInv(archiving, sid, d0, f0, listing, todo, q, d1, f1, success, failed, performed, performed0, d2, f2, attempted, done);
  }

  lemma EffectKeepsInv(archiving: bool, sid: string, d0: set<Loc>, f0: map<Loc, Bytes>, listing: set<Path>, todo: set<Path>, q: Path,
                       d1: set<Loc>, f1: map<Loc, Bytes>, success: bool, failed: set<Path>, performed: bool, performed0: bool,
                       d2: set<Loc>, f2: map<Loc, Bytes>, attempted: bool, done: bool)
    requires WellFormed(d0, f0)
    requires Inv(archiving, sid, d0, f0, listing, todo, d1, f1, success, failed, performed, performed0)
    requires q in todo && forall e :: e in todo ==> |q| <= |e|
    requires Effect(archiving, sid, q, d1, f1, d2, f2, attempted, done)
    ensures Inv(archiving, sid, d0, f0, listing, todo - {q}, d2, f2, success && done,
                if attempted && !done then failed + {q} else failed, performed || attempted, performed0)
  {
    FrameKept(archiving, sid, d0, f0, listing, todo, q, d1, f1, d2, f2, attempted, done);
    if attempted && done {
      RemovedProgress(archiving, sid, d0, f0, listing, todo, q, d1, f1, success, failed, performed, performed0, d2, f2, attempted, done);
    } else {
      KeptProgress(archiving, sid, d0, f0, listing, todo, q, d1, f1, success, failed, performed, performed0, d2, f2, attempted, done);
    }
  }

  lemma FrameKept(archiving: bool, sid: string, d0: set<Loc>, f0: map<Loc, Bytes>, listing: set<Path>, todo: set<Path>, q: Path,
                   d1: set<Loc>, f1: map<Loc, Bytes>, d2: set<Loc>, f2: map<Loc, Bytes>, attempted: bool, done: bool)
    requires Frame(archiving, sid, d0, f0, listing, todo, d1, f1)
    requires q in todo && forall e :: e in todo ==> |q| <= |e|
    requires Effect(archiving, sid, q, d1, f1, d2, f2, attempted, done)
    ensures Frame(archiving, sid, d0, f0, listing, todo - {q}, d2, f2)
  {
    OutsideTrans(archiving, d0, f0, d1, f1, d2, f2);
    if archiving {
      EffectKeeps(sid, f0, q, d1, f1, d2, f2, attempted, done);
    }
  }

  /** The directory at `q` and its subtree are gone. */
  lemma RemovedProgress(archiving: bool, sid: string, d0: set<Loc>, f0: map<Loc, Bytes>, listing: set<Path>, todo: set<Path>, q: Path,
                       d1: set<Loc>, f1: map<Loc, Bytes>, success: bool, failed: set<Path>, performed: bool, performed0: bool,
                       d2: set<Loc>, f2: map<Loc, Bytes>, attempted: bool, done: bool)
    requires WellFormed(d0, f0)
    requires Inv(archiving, sid, d0, f0, listing, todo, d1, f1, success, failed, performed, performed0)
    requires q in todo && forall e :: e in todo ==> |q| <= |e|
    requires Effect(archiving, sid, q, d1, f1, d2, f2, attempted, done)
    requires attempted && done
    ensures Progress(d0, f0, listing, todo - {q}, d2, f2, success, failed, true, performed0)
  {
    Survivors(d0, f0, listing, todo, q, d1, f1, d2, f2);
  }

  /** The replica is as it was: `q` was not a directory to remove, or removing it failed. */
  lemma KeptProgress(archiving: bool, sid: string, d0: set<Loc>, f0: map<Loc, Bytes>, listing: set<Path>, todo: set<Path>, q: Path,
                       d1: set<Loc>, f1: map<Loc, Bytes>, success: bool, failed: set<Path>, performed: bool, performed0: bool,
                       d2: set<Loc>, f2: map<Loc, Bytes>, attempted: bool, done: bool)
    requires WellFormed(d0, f0)
    requires Inv(archiving, sid, d0, f0, listing, todo, d1, f1, success, failed, performed, performed0)
    requires q in todo && forall e :: e in todo ==> |q| <= |e|
    requires Effect(archiving, sid, q, d1, f1, d2, f2, attempted, done)
    requires !(attempted && done)
    ensures Progress(d0, f0, listing, todo - {q}, d2, f2, success && done,
                     if attempted && !done then failed + {q} else failed, performed || attempted, performed0)
  {
  }

  /**
   * Removing the subtree at `q` keeps every replica entry with a source counterpart, and no
   * entry already handled, since those are no deeper than `q`.
   */
  lemma Survivors(d0: set<Loc>, f0: map<Loc, Bytes>, listing: set<Path>, todo: set<Path>, q: Path,
                  d1: set<Loc>, f1: map<Loc, Bytes>, d2: set<Loc>, f2: map<Loc, Bytes>)
    requires WellFormed(d0, f0)
    requires forall p :: p in listing <==> Loc(Replica, p) in d0
    requires q in todo && todo <= listing
    requires forall x, y :: x in listing - todo && y in todo ==> |x| <= |y|
    requires SameRoot(Source, d0, f0, d1, f1) && Loc(Source, q) !in d1 && ReplicaFilesShrink(f0, f1)
    requires forall l: Loc :: l.root == Replica ==> (l in d2 <==> l in d1 && !Within(l, Loc(Replica, q)))
    requires forall l: Loc :: l.root == Replica ==> (l in f2 <==> l in f1 && !Within(l, Loc(Replica, q)))
    ensures forall p :: p in listing && Loc(Source, p) in d0 && Loc(Replica, p) in d1 ==> Loc(Replica, p) in d2
    ensures forall p :: Loc(Source, p) in f0 && Loc(Replica, p) in f1 ==> Loc(Replica, p) in f2
    ensures forall p :: p in listing - todo && Loc(Replica, p) in d1 ==> Loc(Replica, p) in d2
  {
    assert q != [] by { assert Loc(Replica, q) in d0; }
    forall p | Loc(Source, p) in d0 && q <= p
      ensures false
    {
      SourceAncestors(d0, f0, q, p);
    }
    forall p | Loc(Source, p) in f0 && Loc(Replica, p) in f1
      ensures Loc(Replica, p) in f2
    {
      if q <= p {
        if q == p {
          assert false;
        } else {
          AncestorIsDir(d0, f0, Loc(Source, p), Loc(Source, q));
        }
      }
    }
    forall x | x in listing - todo && Loc(Replica, x) in d1
      ensures Loc(Replica, x) in d2
    {
      ShallowerNotBelow(q, x);
    }
  }

  /** A path no longer than `q` and different from it does not lie beneath `q`. */
  lemma ShallowerNotBelow(q: Path, x: Path)
    requires x != q && |x| <= |q|
    ensures !(q <= x)
  {
  }

  /** Every replica file of the starting state stays in place or sits in the archive, unchanged. */
  lemma EffectKeeps(sid: string, f0: map<Loc, Bytes>, q: Path, d1: set<Loc>, f1: map<Loc, Bytes>, d2: set<Loc>, f2: map<Loc, Bytes>, attempted: bool, done: bool)
    requires Keeps(f0, sid, f1) && ReplicaFilesShrink(f0, f1)
    requires Effect(true, sid, q, d1, f1, d2, f2, attempted, done)
    ensures Keeps(f0, sid, f2)
  {
    forall p | Loc(Replica, p) in f0
      ensures (Loc(Replica, p) in f2 && f2[Loc(Replica, p)] == f0[Loc(Replica, p)]) ||
              (Archived(sid, p) in f2 && f2[Archived(sid, p)] == f0[Loc(Replica, p)])
    {
      if Loc(Replica, p) in f1 && f1[Loc(Replica, p)] == f0[Loc(Replica, p)] && !(Loc(Replica, p) in f2) {
        assert q <= p;
      }
    }
  }

  lemma Final(archiving: bool, sid: string, d0: set<Loc>, f0: map<Loc, Bytes>, listing: set<Path>,
              d: set<Loc>, f: map<Loc, Bytes>, success: bool, failed: set<Path>, performed: bool, performed0: bool)
    requires Inv(archiving, sid, d0, f0, listing, {}, d, f, success, failed, performed, performed0)
    ensures PrunedDirs(archiving, sid, State(d0, f0, performed0), State(d, f, performed), Report(success, failed))
  {
  }
}
