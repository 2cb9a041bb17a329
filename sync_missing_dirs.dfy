/** The reasoning behind RecreateMissingDirectories, over filesystem states as values. */
module MissingDirsProof {
  import opened FileHash
  import opened FileSystem
  import opened SyncFacts
  import opened Phases

  /**
   * What handling the listing entry `p` does: when the replica has no directory at `p`, it is
   * created with every missing directory above it, and `done` tells whether that happened.
   */
  ghost predicate Step(p: Path, d1: set<Loc>, f1: map<Loc, Bytes>, d2: set<Loc>, f2: map<Loc, Bytes>, attempted: bool, done: bool) {
    && attempted == !IsDirIn(d1, Loc(Replica, p))
    && f2 == f1
    && d2 == (if attempted && done then d1 + Ancestry(Loc(Replica, p)) else d1)
    && (!attempted ==> done)
  }

  /** The loop invariant: `todo` is the part of the listing not yet handled. */
  ghost predicate Inv(d0: set<Loc>, f0: map<Loc, Bytes>, listing: set<Path>, todo: set<Path>,
                      d: set<Loc>, f: map<Loc, Bytes>, success: bool, failed: set<Path>, performed: bool, performed0: bool) {
    && (forall p :: p in listing <==> Loc(Source, p) in d0)
    && todo <= listing
    && f == f0
    && Outside(false, d0, f0, d, f)
    && ReplicaDirsGrow(d0, d)
    && (forall p :: Loc(Replica, p) in d ==> Loc(Replica, p) in d0 || Loc(Source, p) in d0)
    && failed <= listing - todo
    && (forall p :: p in failed ==> Loc(Replica, p) !in d0)
    && (forall p :: p in listing - todo && p !in failed ==> Loc(Replica, p) in d)
    && (success <==> failed == {})
    && (performed0 ==> performed)
    && (performed ==> performed0 || !DirsCovered(Source, Replica, d0))
    && (!performed ==> d == d0 && forall p :: p in listing - todo ==> Loc(Replica, p) in d0)
  }

  lemma Init(d0: set<Loc>, f0: map<Loc, Bytes>, listing: set<Path>, performed0: bool)
    requires forall p :: p in listing <==> Loc(Source, p) in d0
    ensures Inv(d0, f0, listing, listing, d0, f0, true, {}, performed0, performed0)
  {
  }

  lemma StepKeepsInv(d0: set<Loc>, f0: map<Loc, Bytes>, listing: set<Path>, todo: set<Path>, p: Path,
                     d1: set<Loc>, f1: map<Loc, Bytes>, success: bool, failed: set<Path>, performed: bool, performed0: bool,
                     d2: set<Loc>, f2: map<Loc, Bytes>, attempted: bool, done: bool)
    requires WellFormed(d0, f0)
    requires Inv(d0, f0, listing, todo, d1, f1, success, failed, performed, performed0)
    requires p in todo
    requires Step(p, d1, f1, d2, f2, attempted, done)
    ensures Inv(d0, f0, listing, todo - {p}, d2, f2, success && done,
                if attempted && !done then failed + {p} else failed, performed || attempted, performed0)
  {
    assert p != [] && Loc(Source, p) in d0;
    if attempted && done {
      forall a | a in Ancestry(Loc(Replica, p))
        ensures Loc(Source, a.path) in d0
      {
        SourceAncestors(d0, f0, a.path, p);
      }
    }
  }

  lemma Final(archiving: bool, d0: set<Loc>, f0: map<Loc, Bytes>, listing: set<Path>,
              d: set<Loc>, f: map<Loc, Bytes>, success: bool, failed: set<Path>, performed: bool, performed0: bool)
    requires Inv(d0, f0, listing, {}, d, f, success, failed, performed, performed0)
    ensures RecreatedDirs(archiving, State(d0, f0, performed0), State(d, f, performed), Report(success, failed))
  {
    OutsideEither(archiving, d0, f0, d, f);
  }
}
