/** The reasoning behind ReplaceEditedFiles, over filesystem states as values. */
module EditedFilesProof {
  import opened FileHash
  import opened FileSystem
  import opened SyncFacts
  import opened Phases

  /**
   * What handling the listing entry `p` does. Hashing a missing source file throws. A replica
   * file whose digest differs from the source file's is, when archiving, moved to the session
   * archive and replaced by a copy of the source file (`mutated`: the move happened), and
   * otherwise deleted (`mutated`: the delete was attempted); `done` tells whether all of it
   * worked.
   */
  ghost predicate Step(archiving: bool, sid: string, sha: Bytes -> Digest, p: Path, d1: set<Loc>, f1: map<Loc, Bytes>,
                       d2: set<Loc>, f2: map<Loc, Bytes>, threw: bool, attempted: bool, mutated: bool, done: bool) {
    var src, dst, org := Loc(Replica, p), Archived(sid, p), Loc(Source, p);
    && src in f1
    && threw == (org !in f1)
    && if threw then !attempted && !mutated && done && d2 == d1 && f2 == f1
       else
         && attempted == (sha(f1[src]) != sha(f1[org]))
         && if !attempted then !mutated && done && d2 == d1 && f2 == f1
            else if archiving then
              && (d2 == d1 || d2 == d1 + Ancestry(Parent(dst)))
              && (done ==> mutated)
              && (mutated ==> dst !in f1)
              && f2 == (if !mutated then f1
                        else if done then (f1 - {src} + map[dst := f1[src]])[src := f1[org]]
                        else f1 - {src} + map[dst := f1[src]])
            else
              && mutated && d2 == d1 && f2 == (if done then f1 - {src} else f1)
  }

  /** The consequences of `Step` that the invariant needs. */
  ghost predicate Effect(archiving: bool, sid: string, sha: Bytes -> Digest, p: Path, d1: set<Loc>, f1: map<Loc, Bytes>,
                         d2: set<Loc>, f2: map<Loc, Bytes>, threw: bool, attempted: bool, mutated: bool, done: bool) {
    var src, dst, org := Loc(Replica, p), Archived(sid, p), Loc(Source, p);
    && src in f1
    && (threw <==> org !in f1)
    && (threw ==> !attempted && d2 == d1 && f2 == f1)
    && (!threw ==> (attempted <==> sha(f1[src]) != sha(f1[org])))
    && (!attempted ==> !mutated && done && d2 == d1)
    && (!mutated ==> f2 == f1)
    && (mutated ==> attempted)
    && (attempted && done ==> mutated)
    && (!archiving && attempted ==> mutated)
    && Outside(archiving, d1, f1, d2, f2)
    && ReplicaDirsSame(d1, d2)
    && (forall l: Loc :: l.root == Replica && l != src ==> (l in f2 <==> l in f1))
    && (forall l: Loc :: l.root == Replica && l != src && l in f2 ==> f2[l] == f1[l])
    && (src in f2 <==> !mutated || archiving == done)
    && (src in f2 ==> f2[src] == if archiving && mutated then f1[org] else f1[src])
    && (archiving && mutated ==> dst in f2 && f2[dst] == f1[src])
  }

  lemma StepEffect(archiving: bool, sid: string, sha: Bytes -> Digest, p: Path, d1: set<Loc>, f1: map<Loc, Bytes>,
                   d2: set<Loc>, f2: map<Loc, Bytes>, threw: bool, attempted: bool, mutated: bool, done: bool)
    requires Step(archiving, sid, sha, p, d1, f1, d2, f2, threw, attempted, mutated, done)
    ensures Effect(archiving, sid, sha, p, d1, f1, d2, f2, threw, attempted, mutated, done)
  {
    if !attempted {
    } else if archiving {
      if mutated && done {
        ReplacedEffect(sid, sha, p, d1, f1, d2, f2);
      } else {
        ArchivingEffect(archiving, sid, sha, p, d1, f1, d2, f2, threw, attempted, mutated, done);
      }
    } else {
      DeletingEffect(archiving, sid, sha, p, d1, f1, d2, f2, threw, attempted, mutated, done);
    }
  }

  /** With archiving, the replica file was not replaced: it is untouched, or only moved to the archive. */
  lemma ArchivingEffect(archiving: bool, sid: string, sha: Bytes -> Digest, p: Path, d1: set<Loc>, f1: map<Loc, Bytes>,
                   d2: set<Loc>, f2: map<Loc, Bytes>, threw: bool, attempted: bool, mutated: bool, done: bool)
    requires Step(archiving, sid, sha, p, d1, f1, d2, f2, threw, attempted, mutated, done)
    requires attempted && archiving && !(mutated && done)
    ensures Effect(archiving, sid, sha, p, d1, f1, d2, f2, threw, attempted, mutated, done)
  {
    assert forall a :: a in Ancestry(Parent(Archived(sid, p))) ==> a.root == Archive;
  }

  /** Without archiving, the replica file is deleted, or left in place when that fails. */
  lemma DeletingEffect(archiving: bool, sid: string, sha: Bytes -> Digest, p: Path, d1: set<Loc>, f1: map<Loc, Bytes>,
                   d2: set<Loc>, f2: map<Loc, Bytes>, threw: bool, attempted: bool, mutated: bool, done: bool)
    requires Step(archiving, sid, sha, p, d1, f1, d2, f2, threw, attempted, mutated, done)
    requires attempted && !archiving
    ensures Effect(archiving, sid, sha, p, d1, f1, d2, f2, threw, attempted, mutated, done)
  {
  }

  lemma ReplacedEffect(sid: string, sha: Bytes -> Digest, p: Path, d1: set<Loc>, f1: map<Loc, Bytes>, d2: set<Loc>, f2: map<Loc, Bytes>)
    requires Loc(Replica, p) in f1 && Loc(Source, p) in f1
    requires sha(f1[Loc(Replica, p)]) != sha(f1[Loc(Source, p)]) && Archived(sid, p) !in f1
    requires d2 == d1 || d2 == d1 + Ancestry(Parent(Archived(sid, p)))
    requires var src, dst := Loc(Replica, p), Archived(sid, p);
      f2 == (f1 - {src} + map[dst := f1[src]])[src := f1[Loc(Source, p)]]
    ensures Effect(true, sid, sha, p, d1, f1, d2, f2, false, true, true, true)
  {
    assert forall a :: a in Ancestry(Parent(Archived(sid, p))) ==> a.root == Archive;
  }

  /** The loop invariant: `todo` is the part of the listing not yet handled, and nothing has thrown. */
  ghost predicate Inv(archiving: bool, sid: string, sha: Bytes -> Digest, d0: set<Loc>, f0: map<Loc, Bytes>, listing: set<Path>, todo: set<Path>,
                      d: set<Loc>, f: map<Loc, Bytes>, success: bool, failed: set<Path>, performed: bool, performed0: bool) {
    && Frame(archiving, sid, sha, d0, f0, listing, todo, d, f)
    && Outcome(archiving, sha, f0, listing, todo, f, success, failed, performed, performed0)
  }

  /**
   * The part of the invariant about the handled entries whose replacement failed (`failed`)
   * or worked, the phase's result and the mutation flag.
   */
  ghost predicate Outcome(archiving: bool, sha: Bytes -> Digest, f0: map<Loc, Bytes>, listing: set<Path>, todo: set<Path>,
                          f: map<Loc, Bytes>, success: bool, failed: set<Path>, performed: bool, performed0: bool)
    requires forall p :: p in listing - todo ==> Loc(Replica, p) in f0 && Loc(Source, p) in f0
  {
    && failed <= listing - todo
    && Replacements(archiving, sha, f0, listing - todo, f, failed)
    && (success <==> failed == {})
    && (performed0 ==> performed)
    && (performed ==> performed0 || !Agree(sha, f0))
    && (!performed && (success || !archiving) ==>
          forall p :: p in listing - todo ==> sha(f0[Loc(Replica, p)]) == sha(f0[Loc(Source, p)]))
    && (!performed ==> f == f0)
  }

  /**
   * The handled entries one by one: those in `failed` had a differing digest and are
   * untouched or, only when archiving, gone; every other one with a differing digest holds its source file's
   * content (archiving) or is gone.
   */
  ghost predicate Replacements(archiving: bool, sha: Bytes -> Digest, f0: map<Loc, Bytes>, handled: set<Path>,
                               f: map<Loc, Bytes>, failed: set<Path>)
    requires forall p :: p in handled ==> Loc(Replica, p) in f0 && Loc(Source, p) in f0
  {
    && (forall p :: p in failed && p in handled ==> sha(f0[Loc(Replica, p)]) != sha(f0[Loc(Source, p)]))
    && (forall p :: p in failed && p in handled ==> Loc(Replica, p) in f ==> f[Loc(Replica, p)] == f0[Loc(Replica, p)])
    && (forall p :: p in failed && p in handled && !archiving ==> Loc(Replica, p) in f)
    && (forall p :: p in handled && sha(f0[Loc(Replica, p)]) != sha(f0[Loc(Source, p)]) && p !in failed ==>
          if archiving then Loc(Replica, p) in f && f[Loc(Replica, p)] == f0[Loc(Source, p)] else Loc(Replica, p) !in f)
  }

  lemma Init(archiving: bool, sid: string, sha: Bytes -> Digest, d0: set<Loc>, f0: map<Loc, Bytes>, listing: set<Path>, performed0: bool)
    requires forall p :: p in listing <==> Loc(Replica, p) in f0
    ensures Inv(archiving, sid, sha, d0, f0, listing, listing, d0, f0, true, {}, performed0, performed0)
  {
  }

  lemma StepKeepsInv(archiving: bool, sid: string, sha: Bytes -> Digest, d0: set<Loc>, f0: map<Loc, Bytes>, listing: set<Path>, todo: set<Path>, p: Path,
                     d1: set<Loc>, f1: map<Loc, Bytes>, success: bool, failed: set<Path>, performed: bool, performed0: bool,
                     d2: set<Loc>, f2: map<Loc, Bytes>, attempted: bool, mutated: bool, done: bool)
    requires Inv(archiving, sid, sha, d0, f0, listing, todo, d1, f1, success, failed, performed, performed0)
    requires p in todo
    requires Step(archiving, sid, sha, p, d1, f1, d2, f2, false, attempted, mutated, done)
    ensures Inv(archiving, sid, sha, d0, f0, listing, todo - {p}, d2, f2, success && done,
                if attempted && !done then failed + {p} else failed, performed || mutated, performed0)
  {
    StepEffect(archiving, sid, sha, p, d1, f1, d2, f2, false, attempted, mutated, done);
    FrameKeepsInv(archiving, sid, sha, d0, f0, listing, todo, p, d1, f1, d2, f2, attempted, mutated, done);
    StatusKeepsInv(archiving, sid, sha, d0, f0, listing, todo, p, d1, f1, success, failed, performed, performed0, d2, f2, attempted, mutated, done);
  }

  /** The part of the invariant about the filesystem state. */
  ghost predicate Frame(archiving: bool, sid: string, sha: Bytes -> Digest, d0: set<Loc>, f0: map<Loc, Bytes>, listing: set<Path>, todo: set<Path>,
                        d: set<Loc>, f: map<Loc, Bytes>) {
    && (forall p :: p in listing <==> Loc(Replica, p) in f0)
    && todo <= listing
    && Outside(archiving, d0, f0, d, f)
    && ReplicaDirsSame(d0, d)
    && (forall p :: p in listing - todo ==> Loc(Source, p) in f0)
    && (forall p :: p in todo ==> Loc(Replica, p) in f && f[Loc(Replica, p)] == f0[Loc(Replica, p)])
    && (forall l: Loc :: l.root == Replica && l in f ==> l in f0)
    && (forall p :: Loc(Replica, p) in f ==>
          f[Loc(Replica, p)] == f0[Loc(Replica, p)] || (Loc(Source, p) in f0 && f[Loc(Replica, p)] == f0[Loc(Source, p)]))
    && (forall p :: p in listing - todo && sha(f0[Loc(Replica, p)]) == sha(f0[Loc(Source, p)]) ==>
          Loc(Replica, p) in f && f[Loc(Replica, p)] == f0[Loc(Replica, p)])
    && (AllAgreed(sha, f0, listing - todo) ==> d == d0 && f == f0)
    && (archiving ==> Keeps(f0, sid, f))
  }

  /** Every entry of `handled` had the digest of its source file. */
  ghost predicate AllAgreed(sha: Bytes -> Digest, f0: map<Loc, Bytes>, handled: set<Path>)
    requires forall p :: p in handled ==> Loc(Replica, p) in f0 && Loc(Source, p) in f0
  {
    forall p :: p in handled ==> sha(f0[Loc(Replica, p)]) == sha(f0[Loc(Source, p)])
  }

  lemma FrameKeepsInv(archiving: bool, sid: string, sha: Bytes -> Digest, d0: set<Loc>, f0: map<Loc, Bytes>, listing: set<Path>, todo: set<Path>, p: Path,
                      d1: set<Loc>, f1: map<Loc, Bytes>, d2: set<Loc>, f2: map<Loc, Bytes>, attempted: bool, mutated: bool, done: bool)
    requires Frame(archiving, sid, sha, d0, f0, listing, todo, d1, f1)
    requires p in todo
    requires Effect(archiving, sid, sha, p, d1, f1, d2, f2, false, attempted, mutated, done)
    ensures Frame(archiving, sid, sha, d0, f0, listing, todo - {p}, d2, f2)
  {
    OutsideTrans(archiving, d0, f0, d1, f1, d2, f2);
    if archiving {
      EffectKeeps(sid, sha, f0, p, d1, f1, d2, f2, attempted, mutated, done);
    }
    assert f1[Loc(Source, p)] == f0[Loc(Source, p)];
    assert listing - (todo - {p}) == (listing - todo) + {p};
    QuietKept(sha, f0, listing - todo, p, d0, d1, f1, d2, f2, attempted);
  }

  /** While every handled entry agreed, nothing has changed, and an agreeing entry changes nothing either. */
  lemma QuietKept(sha: Bytes -> Digest, f0: map<Loc, Bytes>, handled: set<Path>, p: Path,
                  d0: set<Loc>, d1: set<Loc>, f1: map<Loc, Bytes>, d2: set<Loc>, f2: map<Loc, Bytes>, attempted: bool)
    requires forall q :: q in handled + {p} ==> Loc(Replica, q) in f0 && Loc(Source, q) in f0
    requires AllAgreed(sha, f0, handled) ==> d1 == d0 && f1 == f0
    requires attempted <==> sha(f0[Loc(Replica, p)]) != sha(f0[Loc(Source, p)])
    requires !attempted ==> d2 == d1 && f2 == f1
    ensures AllAgreed(sha, f0, handled + {p}) ==> d2 == d0 && f2 == f0
  {
    if AllAgreed(sha, f0, handled + {p}) {
      assert p in handled + {p};
      assert AllAgreed(sha, f0, handled);
    }
  }

  /** Every replica file of the starting state stays in place or sits in the archive, unchanged. */
  lemma EffectKeeps(sid: string, sha: Bytes -> Digest, f0: map<Loc, Bytes>, p: Path, d1: set<Loc>, f1: map<Loc, Bytes>,
                    d2: set<Loc>, f2: map<Loc, Bytes>, attempted: bool, mutated: bool, done: bool)
    requires Keeps(f0, sid, f1)
    requires Loc(Replica, p) in f0 && Loc(Replica, p) in f1 && f1[Loc(Replica, p)] == f0[Loc(Replica, p)]
    requires Effect(true, sid, sha, p, d1, f1, d2, f2, false, attempted, mutated, done)
    ensures Keeps(f0, sid, f2)
  {
    forall q | Loc(Replica, q) in f0
      ensures (Loc(Replica, q) in f2 && f2[Loc(Replica, q)] == f0[Loc(Replica, q)]) ||
              (Archived(sid, q) in f2 && f2[Archived(sid, q)] == f0[Loc(Replica, q)])
    {
      if q != p && Loc(Replica, q) in f1 && f1[Loc(Replica, q)] == f0[Loc(Replica, q)] {
        assert Loc(Replica, q) in f2;
      }
    }
  }

  lemma StatusKeepsInv(archiving: bool, sid: string, sha: Bytes -> Digest, d0: set<Loc>, f0: map<Loc, Bytes>, listing: set<Path>, todo: set<Path>, p: Path,
                       d1: set<Loc>, f1: map<Loc, Bytes>, success: bool, failed: set<Path>, performed: bool, performed0: bool,
                       d2: set<Loc>, f2: map<Loc, Bytes>, attempted: bool, mutated: bool, done: bool)
    requires Frame(archiving, sid, sha, d0, f0, listing, todo, d1, f1)
    requires Outcome(archiving, sha, f0, listing, todo, f1, success, failed, performed, performed0)
    requires Frame(archiving, sid, sha, d0, f0, listing, todo - {p}, d2, f2)
    requires p in todo
    requires Effect(archiving, sid, sha, p, d1, f1, d2, f2, false, attempted, mutated, done)
    ensures Outcome(archiving, sha, f0, listing, todo - {p}, f2, success && done,
                    if attempted && !done then failed + {p} else failed, performed || mutated, performed0)
  {
    assert f1[Loc(Source, p)] == f0[Loc(Source, p)];
    assert listing - (todo - {p}) == (listing - todo) + {p};
    ReplacementsKept(archiving, sid, sha, f0, listing - todo, p, d1, f1, failed, d2, f2, attempted, mutated, done);
  }

  /** Handling `p` settles `p` and leaves the other handled entries as they were. */
  lemma ReplacementsKept(archiving: bool, sid: string, sha: Bytes -> Digest, f0: map<Loc, Bytes>, handled: set<Path>, p: Path,
                         d1: set<Loc>, f1: map<Loc, Bytes>, failed: set<Path>,
                         d2: set<Loc>, f2: map<Loc, Bytes>, attempted: bool, mutated: bool, done: bool)
    requires forall q :: q in handled + {p} ==> Loc(Replica, q) in f0 && Loc(Source, q) in f0
    requires p !in handled && failed <= handled
    requires Loc(Replica, p) in f1 && f1[Loc(Replica, p)] == f0[Loc(Replica, p)]
    requires Loc(Source, p) in f1 && f1[Loc(Source, p)] == f0[Loc(Source, p)]
    requires Replacements(archiving, sha, f0, handled, f1, failed)
    requires Effect(archiving, sid, sha, p, d1, f1, d2, f2, false, attempted, mutated, done)
    ensures Replacements(archiving, sha, f0, handled + {p}, f2, if attempted && !done then failed + {p} else failed)
  {
  }

  /** Hashing a missing source file throws, and the phase ends in the state it had reached. */
  lemma Thrown(archiving: bool, sid: string, sha: Bytes -> Digest, d0: set<Loc>, f0: map<Loc, Bytes>, listing: set<Path>, todo: set<Path>, p: Path,
               d: set<Loc>, f: map<Loc, Bytes>, success: bool, failed: set<Path>, performed: bool, performed0: bool)
    requires Inv(archiving, sid, sha, d0, f0, listing, todo, d, f, success, failed, performed, performed0)
    requires p in todo && Loc(Source, p) !in f
    ensures ReplacedFiles(archiving, sid, sha, State(d0, f0, performed0), State(d, f, performed), true, Report(false, failed))
  {
  }

  lemma Final(archiving: bool, sid: string, sha: Bytes -> Digest, d0: set<Loc>, f0: map<Loc, Bytes>, listing: set<Path>,
              d: set<Loc>, f: map<Loc, Bytes>, success: bool, failed: set<Path>, performed: bool, performed0: bool)
    requires Inv(archiving, sid, sha, d0, f0, listing, {}, d, f, success, failed, performed, performed0)
    ensures ReplacedFiles(archiving, sid, sha, State(d0, f0, performed0), State(d, f, performed), false, Report(success, failed))
  {
    assert Replaced(archiving, sha, f0, f, failed);
    Settled(archiving, sha, f0, f, failed);
    if Agree(sha, f0) {
      assert AllAgreed(sha, f0, listing);
    }
  }

  /**
   * At the end of the phase, no replacement failed exactly when every replica file has its
   * source file's digest and, when archiving, none is missing.
   */
  lemma Settled(archiving: bool, sha: Bytes -> Digest, f0: map<Loc, Bytes>, f: map<Loc, Bytes>, failed: set<Path>)
    requires FilesCovered(Replica, Source, f0)
    requires forall p :: Loc(Source, p) in f0 ==> Loc(Source, p) in f && f[Loc(Source, p)] == f0[Loc(Source, p)]
    requires forall p :: Loc(Replica, p) in f ==> Loc(Replica, p) in f0
    requires forall p :: Loc(Replica, p) in f0 && sha(f0[Loc(Replica, p)]) == sha(f0[Loc(Source, p)]) ==>
               Loc(Replica, p) in f && f[Loc(Replica, p)] == f0[Loc(Replica, p)]
    requires Replaced(archiving, sha, f0, f, failed)
    ensures failed == {} <==> Agree(sha, f) && (archiving ==> ReplicaKeysKept(f0, f))
  {
    if failed == {} {
      forall p | Loc(Replica, p) in f
        ensures Loc(Source, p) in f && sha(f[Loc(Replica, p)]) == sha(f[Loc(Source, p)])
      {
        assert Loc(Source, p) in f0;
      }
    } else {
      var p :| p in failed;
      assert Loc(Source, p) in f0;
    }
  }
}
