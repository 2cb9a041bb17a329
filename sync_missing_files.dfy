/** The reasoning behind ImportMissingFiles, over filesystem states as values. */
module MissingFilesProof {
  import opened FileHash
  import opened FileSystem
  import opened SyncFacts
  import opened Phases

  /**
   * What handling the listing entry `p` does: when the replica has no file at `p`, the source
   * file is copied there, and `done` tells whether that happened.
   */
  ghost predicate Step(p: Path, d1: set<Loc>, f1: map<Loc, Bytes>, d2: set<Loc>, f2: map<Loc, Bytes>, attempted: bool, done: bool) {
    && attempted == (Loc(Replica, p) !in f1)
    && d2 == d1
    && (!attempted ==> done)
    && (attempted && done ==> Loc(Source, p) in f1)
    && f2 == (if attempted && done then f1[Loc(Replica, p) := f1[Loc(Source, p)]] else f1)
  }

  /** The loop invariant: `todo` is the part of the listing not yet handled. */
  ghost predicate Inv(d0: set<Loc>, f0: map<Loc, Bytes>, listing: set<Path>, todo: set<Path>,
                      d: set<Loc>, f: map<Loc, Bytes>, success: bool, failed: set<Path>, performed: bool, performed0: bool) {
    && (forall p :: p in listing <==> Loc(Source, p) in f0)
    && todo <= listing
    && d == d0
    && Outside(false, d0, f0, d, f)
    && (forall l: Loc :: l.root == Replica && l in f0 ==> l in f && f[l] == f0[l])
    && (forall p :: Loc(Replica, p) in f ==> Loc(Replica, p) in f0 || (Loc(Source, p) in f0 && f[Loc(Replica, p)] == f0[Loc(Source, p)]))
    && failed <= listing - todo
    && (forall p :: p in failed ==> Loc(Replica, p) !in f)
    && (forall p :: p in listing - todo && p !in failed ==> Loc(Replica, p) in f)
    && (success <==> failed == {})
    && (performed0 ==> performed)
    && (performed ==> performed0 || !FilesCovered(Source, Replica, f0))
    && (!performed ==> f == f0 && forall p :: p in listing - todo ==> Loc(Replica, p) in f0)
  }

  lemma Init(d0: set<Loc>, f0: map<Loc, Bytes>, listing: set<Path>, performed0: bool)
    requires forall p :: p in listing <==> Loc(Source, p) in f0
    ensures Inv(d0, f0, listing, listing, d0, f0, true, {}, performed0, performed0)
  {
  }

  lemma StepKeepsInv(d0: set<Loc>, f0: map<Loc, Bytes>, listing: set<Path>, todo: set<Path>, p: Path,
                     d1: set<Loc>, f1: map<Loc, Bytes>, success: bool, failed: set<Path>, performed: bool, performed0: bool,
                     d2: set<Loc>, f2: map<Loc, Bytes>, attempted: bool, done: bool)
    requires Inv(d0, f0, listing, todo, d1, f1, success, failed, performed, performed0)
    requires p in todo
    requires Step(p, d1, f1, d2, f2, attempted, done)
    ensures Inv(d0, f0, listing, todo - {p}, d2, f2, success && done,
                if attempted && !done then failed + {p} else failed, performed || attempted, performed0)
  {
  }

  lemma Final(archiving: bool, d0: set<Loc>, f0: map<Loc, Bytes>, listing: set<Path>,
              d: set<Loc>, f: map<Loc, Bytes>, success: bool, failed: set<Path>, performed: bool, performed0: bool)
    requires Inv(d0, f0, listing, {}, d, f, success, failed, performed, performed0)
    ensures ImportedFiles(archiving, State(d0, f0, performed0), State(d, f, performed), Report(success, failed))
  {
    OutsideEither(archiving, d0, f0, d, f);
  }
}
