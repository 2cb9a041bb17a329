/**
 * Relations between two filesystem states that the sync phases are specified with, and the
 * lemmas that turn a primitive's contract into facts about the source, replica and archive.
 */
module SyncFacts {
  import opened FileHash
  import opened FileSystem

  /** Nothing under root `r` differs between the states. */
  ghost predicate SameRoot(r: Root, d0: set<Loc>, f0: map<Loc, Bytes>, d1: set<Loc>, f1: map<Loc, Bytes>) {
    && (forall l: Loc {:trigger l in d0} {:trigger l in d1} :: l.root == r ==> (l in d0 <==> l in d1))
    && (forall l: Loc {:trigger l in f0} {:trigger l in f1} :: l.root == r ==> (l in f0 <==> l in f1))
    && (forall l: Loc {:trigger l in f0} :: l.root == r && l in f0 ==> l in f1 && f1[l] == f0[l])
  }

  /** Under root `r` the second state only adds: no directory or file is lost or rewritten. */
  ghost predicate GrowsIn(r: Root, d0: set<Loc>, f0: map<Loc, Bytes>, d1: set<Loc>, f1: map<Loc, Bytes>) {
    && (forall l: Loc {:trigger l in d0} :: l.root == r && l in d0 ==> l in d1)
    && (forall l: Loc {:trigger l in f0} :: l.root == r && l in f0 ==> l in f1 && f1[l] == f0[l])
  }

  /** Every file under root `a` has a file at the same relative path under root `b`. */
  ghost predicate FilesCovered(a: Root, b: Root, files: map<Loc, Bytes>) {
    forall p {:trigger Loc(a, p) in files} :: Loc(a, p) in files ==> Loc(b, p) in files
  }

  /** Every directory under root `a` has a directory at the same relative path under root `b`. */
  ghost predicate DirsCovered(a: Root, b: Root, dirs: set<Loc>) {
    forall p {:trigger Loc(a, p) in dirs} :: Loc(a, p) in dirs ==> Loc(b, p) in dirs
  }

  /** The replica's directories are the same in both states. */
  ghost predicate ReplicaDirsSame(d0: set<Loc>, d1: set<Loc>) {
    forall l: Loc {:trigger l in d0} {:trigger l in d1} :: l.root == Replica ==> (l in d1 <==> l in d0)
  }

  /** The replica's files in the second state are some of those of the first, unchanged. */
  ghost predicate ReplicaFilesShrink(f0: map<Loc, Bytes>, f1: map<Loc, Bytes>) {
    forall l: Loc {:trigger l in f1} :: l.root == Replica && l in f1 ==> l in f0 && f1[l] == f0[l]
  }

  ghost predicate ReplicaDirsShrink(d0: set<Loc>, d1: set<Loc>) {
    forall l: Loc {:trigger l in d1} :: l.root == Replica && l in d1 ==> l in d0
  }

  ghost predicate ReplicaDirsGrow(d0: set<Loc>, d1: set<Loc>) {
    forall l: Loc {:trigger l in d0} :: l.root == Replica && l in d0 ==> l in d1
  }

  /** Every replica file has a source file at its path with the same digest. */
  ghost predicate Agree(sha: Bytes -> Digest, f: map<Loc, Bytes>) {
    forall p {:trigger Loc(Replica, p) in f} :: Loc(Replica, p) in f ==> Loc(Source, p) in f && sha(f[Loc(Replica, p)]) == sha(f[Loc(Source, p)])
  }

  ghost predicate ReplicaKeysKept(f0: map<Loc, Bytes>, f1: map<Loc, Bytes>) {
    forall p {:trigger Loc(Replica, p) in f0} :: Loc(Replica, p) in f0 ==> Loc(Replica, p) in f1
  }

  /** The archive of session `sid`, where removed items keep their path relative to the replica. */
  function SessionDir(sid: string): Loc {
    Loc(Archive, [sid])
  }

  function Archived(sid: string, p: Path): Loc {
    Loc(Archive, [sid] + p)
  }

  /**
   * No replica content of the first state is lost in the second: each replica file is still
   * there with the same bytes, or sits at the same relative path in the session archive with
   * those bytes.
   */
  ghost predicate Keeps(f0: map<Loc, Bytes>, sid: string, f1: map<Loc, Bytes>) {
    forall p {:trigger Loc(Replica, p) in f0} :: Loc(Replica, p) in f0 ==>
      (Loc(Replica, p) in f1 && f1[Loc(Replica, p)] == f0[Loc(Replica, p)]) ||
      (Archived(sid, p) in f1 && f1[Archived(sid, p)] == f0[Loc(Replica, p)])
  }

  /** Submap: every key of `a` is a key of `b` with the same value. */
  ghost predicate SubMap<K, V>(a: map<K, V>, b: map<K, V>) {
    forall k :: k in a ==> k in b && b[k] == a[k]
  }

  /**
   * The replica mirrors the source: the same directories, the same file paths, and every file
   * with the digest of the source file at its path.
   */
  ghost predicate Mirrors(src: Tree, rep: Tree, hash: Bytes -> Digest) {
    && rep.dirs == src.dirs
    && rep.files.Keys == src.files.Keys
    && (forall p :: p in rep.files ==> hash(rep.files[p]) == hash(src.files[p]))
  }

  /**
   * Comparing digests stands for comparing contents: under a hash that tells every two
   * contents apart, a mirrored replica is the source itself, byte for byte.
   */
  lemma MirrorsIsEquality(src: Tree, rep: Tree, hash: Bytes -> Digest)
    requires forall a, b :: hash(a) == hash(b) ==> a == b
    ensures Mirrors(src, rep, hash) <==> rep == src
  {
    if Mirrors(src, rep, hash) {
      assert forall p :: p in rep.files ==> rep.files[p] == src.files[p];
      assert rep.files == src.files;
    }
  }

  lemma SameRootTrans(r: Root, d0: set<Loc>, f0: map<Loc, Bytes>, d1: set<Loc>, f1: map<Loc, Bytes>, d2: set<Loc>, f2: map<Loc, Bytes>)
    requires SameRoot(r, d0, f0, d1, f1) && SameRoot(r, d1, f1, d2, f2)
    ensures SameRoot(r, d0, f0, d2, f2)
  {
  }

  lemma GrowsTrans(r: Root, d0: set<Loc>, f0: map<Loc, Bytes>, d1: set<Loc>, f1: map<Loc, Bytes>, d2: set<Loc>, f2: map<Loc, Bytes>)
    requires GrowsIn(r, d0, f0, d1, f1) && GrowsIn(r, d1, f1, d2, f2)
    ensures GrowsIn(r, d0, f0, d2, f2)
  {
  }

  /**
   * What a phase may do outside the replica: the source never changes; the archive only
   * gains when archiving and does not change at all otherwise.
   */
  ghost predicate Outside(archiving: bool, d0: set<Loc>, f0: map<Loc, Bytes>, d1: set<Loc>, f1: map<Loc, Bytes>) {
    && SameRoot(Source, d0, f0, d1, f1)
    && (if archiving then GrowsIn(Archive, d0, f0, d1, f1) else SameRoot(Archive, d0, f0, d1, f1))
  }

  lemma OutsideTrans(archiving: bool, d0: set<Loc>, f0: map<Loc, Bytes>, d1: set<Loc>, f1: map<Loc, Bytes>, d2: set<Loc>, f2: map<Loc, Bytes>)
    requires Outside(archiving, d0, f0, d1, f1) && Outside(archiving, d1, f1, d2, f2)
    ensures Outside(archiving, d0, f0, d2, f2)
  {
    SameRootTrans(Source, d0, f0, d1, f1, d2, f2);
    if archiving {
      GrowsTrans(Archive, d0, f0, d1, f1, d2, f2);
    } else {
      SameRootTrans(Archive, d0, f0, d1, f1, d2, f2);
    }
  }

  /** A phase that leaves the archive as it was is allowed in either mode. */
  lemma OutsideEither(archiving: bool, d0: set<Loc>, f0: map<Loc, Bytes>, d1: set<Loc>, f1: map<Loc, Bytes>)
    requires Outside(false, d0, f0, d1, f1)
    ensures Outside(archiving, d0, f0, d1, f1)
  {
  }

  /** The tree-level reading of `Outside`. */
  lemma OutsideView(archiving: bool, d0: set<Loc>, f0: map<Loc, Bytes>, d1: set<Loc>, f1: map<Loc, Bytes>)
    requires Outside(archiving, d0, f0, d1, f1)
    ensures View(d1, f1, Source) == View(d0, f0, Source)
    ensures !archiving ==> View(d1, f1, Archive) == View(d0, f0, Archive)
  {
    SameRootView(Source, d0, f0, d1, f1);
    if !archiving {
      SameRootView(Archive, d0, f0, d1, f1);
    }
  }

  lemma SameRootView(r: Root, d0: set<Loc>, f0: map<Loc, Bytes>, d1: set<Loc>, f1: map<Loc, Bytes>)
    requires SameRoot(r, d0, f0, d1, f1)
    ensures View(d0, f0, r) == View(d1, f1, r)
  {
    var v0, v1 := View(d0, f0, r), View(d1, f1, r);
    assert v0.dirs == v1.dirs;
    assert v0.files.Keys == v1.files.Keys;
    assert v0.files == v1.files;
  }

  lemma GrowsView(r: Root, d0: set<Loc>, f0: map<Loc, Bytes>, d1: set<Loc>, f1: map<Loc, Bytes>)
    requires GrowsIn(r, d0, f0, d1, f1)
    ensures View(d0, f0, r).dirs <= View(d1, f1, r).dirs
    ensures SubMap(View(d0, f0, r).files, View(d1, f1, r).files)
  {
  }

  /** Archiving through two steps: what the first step kept in the replica, the second keeps or archives. */
  lemma KeepsTransitive(sid: string, f0: map<Loc, Bytes>, d1: set<Loc>, f1: map<Loc, Bytes>, d2: set<Loc>, f2: map<Loc, Bytes>)
    requires Keeps(f0, sid, f1) && Keeps(f1, sid, f2)
    requires GrowsIn(Archive, d1, f1, d2, f2)
    ensures Keeps(f0, sid, f2)
  {
  }

  /** A nonempty set of paths has a shallowest member, the one a breadth-first listing yields first. */
  lemma {:induction false} Shallowest(s: set<Path>) returns (q: Path)
    requires s != {}
    ensures q in s && forall e :: e in s ==> |q| <= |e|
    decreases s
  {
    var x :| x in s;
    var rest := s - {x};
    if rest == {} {
      q := x;
      assert s == rest + {x};
    } else {
      var y := Shallowest(rest);
      q := if |x| < |y| then x else y;
      forall e | e in s ensures |q| <= |e| {
        if e != x {
          assert e in rest;
        }
      }
    }
  }

  lemma ArchivedWithin(q: Path, p: Path, sid: string)
    requires q <= p
    ensures Within(Archived(sid, p), Archived(sid, q))
    ensures Rebase(Archived(sid, p), Archived(sid, q), Loc(Replica, q)) == Loc(Replica, p)
  {
    assert ([sid] + q) <= ([sid] + p);
    assert ([sid] + p)[|[sid] + q|..] == p[|q|..];
    assert q + p[|q|..] == p;
  }

  /**
   * A replica directory moved into the session archive: the replica loses that subtree, the
   * source is untouched, the archive only gains, and each moved file lands at its archived path.
   */
  lemma ArchiveDirEffect(d0: set<Loc>, f0: map<Loc, Bytes>, parents: set<Loc>, q: Path, sid: string)
    requires WellFormed(d0, f0)
    requires !IsDirIn(d0, Archived(sid, q)) && Archived(sid, q) !in f0
    requires forall a :: a in parents ==> a.root == Archive
    ensures var d1, f1 := DirsMoved(d0 + parents, Loc(Replica, q), Archived(sid, q)), FilesMoved(f0, Loc(Replica, q), Archived(sid, q));
      && SameRoot(Source, d0, f0, d1, f1)
      && GrowsIn(Archive, d0, f0, d1, f1)
      && (forall l: Loc :: l.root == Replica ==> (l in d1 <==> l in d0 && !Within(l, Loc(Replica, q))))
      && (forall l: Loc :: l.root == Replica ==> (l in f1 <==> l in f0 && !Within(l, Loc(Replica, q))))
      && (forall l: Loc :: l.root == Replica && l in f1 ==> f1[l] == f0[l])
      && (forall p :: Loc(Replica, p) in f0 && q <= p ==> Archived(sid, p) in f1 && f1[Archived(sid, p)] == f0[Loc(Replica, p)])
  {
    var src, dst := Loc(Replica, q), Archived(sid, q);
    var d1, f1 := DirsMoved(d0 + parents, src, dst), FilesMoved(f0, src, dst);
    NothingBelowMissing(d0, f0, dst);
    forall p | Loc(Replica, p) in f0 && q <= p
      ensures Archived(sid, p) in f1 && f1[Archived(sid, p)] == f0[Loc(Replica, p)]
    {
      ArchivedWithin(q, p, sid);
    }
  }

  /** A replica directory deleted with its subtree: nothing outside it changes. */
  lemma DeleteDirEffect(d0: set<Loc>, f0: map<Loc, Bytes>, q: Path)
    ensures var d1, f1 := DirsWithout(d0, Loc(Replica, q)), FilesWithout(f0, Loc(Replica, q));
      && SameRoot(Source, d0, f0, d1, f1)
      && SameRoot(Archive, d0, f0, d1, f1)
      && (forall l: Loc :: l.root == Replica ==> (l in d1 <==> l in d0 && !Within(l, Loc(Replica, q))))
      && (forall l: Loc :: l.root == Replica ==> (l in f1 <==> l in f0 && !Within(l, Loc(Replica, q))))
      && (forall l: Loc :: l.root == Replica && l in f1 ==> f1[l] == f0[l])
  {
  }

  /** A source directory lies below source directories only. */
  lemma SourceAncestors(d: set<Loc>, f: map<Loc, Bytes>, q: Path, p: Path)
    requires WellFormed(d, f)
    requires Loc(Source, p) in d && q <= p && q != []
    ensures Loc(Source, q) in d
  {
    if q != p {
      AncestorIsDir(d, f, Loc(Source, p), Loc(Source, q));
    }
  }
}
