/**
 * An in-memory model of the host filesystem as the sync engine sees it, and the primitives
 * of FileSystemUtils (MoveFile, CopyFile, DeleteFile, MoveDirectory, CreateDirectory,
 * DeleteDirectory, EnsureParentDirectoriesExist, GetFileHash) as methods over it.
 *
 * Every location lives under one of three roots (source, replica, archive) and is named by
 * its path relative to that root, so `Path.Combine` and `Path.GetRelativePath` are the
 * identity on relative paths. A primitive either performs its change and returns true or
 * changes nothing and returns false; it can only succeed when the operation is possible on
 * the current tree (the conditions under which .NET would not throw), and the host may still
 * refuse it (permissions, locks, I/O errors), which is modelled as a nondeterministic choice.
 */
module FileSystem {
  import opened Wrappers
  import opened FileHash

  type Name = string

  /** A path relative to a tree root, one entry per component; [] is the root itself. */
  type Path = seq<Name>

  /** The source tree, the replica tree, and the archive root (`<logs>/DirSync/Archive`). */
  datatype Root = Source | Replica | Archive

  datatype Loc = Loc(root: Root, path: Path)

  /** The relative view of one root: its directory paths and its files' contents. */
  datatype Tree = Tree(dirs: set<Path>, files: map<Path, Bytes>)

  /** `inner` is `outer` itself or lies somewhere beneath it. */
  predicate Within(inner: Loc, outer: Loc) {
    inner.root == outer.root && outer.path <= inner.path
  }

  function Parent(l: Loc): Loc
    requires l.path != []
  {
    Loc(l.root, l.path[..|l.path| - 1])
  }

  /** `l` moved from under `from` to under `to`, keeping its path below `from`. */
  function Rebase(l: Loc, from: Loc, to: Loc): Loc
    requires Within(l, from)
  {
    Loc(to.root, to.path + l.path[|from.path|..])
  }

  lemma RebaseBack(l: Loc, from: Loc, to: Loc)
    requires Within(l, from)
    ensures Within(Rebase(l, from, to), to) && Rebase(Rebase(l, from, to), to, from) == l
  {
    var m := Rebase(l, from, to);
    assert m.path[|to.path|..] == l.path[|from.path|..];
    assert from.path + l.path[|from.path|..] == l.path;
  }

  /** `l` and every directory above it, the root excluded. */
  function Ancestry(l: Loc): (r: set<Loc>)
    ensures forall a :: a in r <==> a.root == l.root && a.path != [] && a.path <= l.path
  {
    var r := set k | 1 <= k <= |l.path| :: Loc(l.root, l.path[..k]);
    assert forall a: Loc :: a.root == l.root && a.path != [] && a.path <= l.path ==> a == Loc(l.root, l.path[..|a.path|]);
    r
  }

  predicate IsDirIn(dirs: set<Loc>, l: Loc) {
    l.path == [] || l in dirs
  }

  /**
   * The tree shape every real filesystem has: the roots always exist, every directory and
   * every file sits in an existing directory, and no location is both a file and a directory.
   */
  ghost predicate WellFormed(dirs: set<Loc>, files: map<Loc, Bytes>) {
    && (forall d :: d in dirs ==> d.path != [])
    && (forall f :: f in files ==> f.path != [] && f !in dirs)
    // triggered on the parent term so that one parent fact does not produce the next
    && (forall d {:trigger Parent(d)} :: d in dirs ==> d.path != [] && IsDirIn(dirs, Parent(d)))
    && (forall f {:trigger Parent(f)} :: f in files ==> f.path != [] && IsDirIn(dirs, Parent(f)))
  }

  /** The relative view of the tree under `r`. */
  function View(dirs: set<Loc>, files: map<Loc, Bytes>, r: Root): (t: Tree)
    ensures forall p {:trigger p in t.dirs} :: p in t.dirs <==> Loc(r, p) in dirs
    ensures forall p {:trigger p in t.files} :: p in t.files <==> Loc(r, p) in files
    ensures forall p {:trigger t.files[p]} :: p in t.files ==> t.files[p] == files[Loc(r, p)]
  {
    var paths := set l | l in files && l.root == r :: l.path;
    Tree(set l | l in dirs && l.root == r :: l.path, map p | p in paths :: files[Loc(r, p)])
  }

  // Effects of the primitives on the directory set and the file map.

  function DirsWithout(dirs: set<Loc>, d: Loc): (r: set<Loc>)
    ensures forall l :: l in r <==> l in dirs && !Within(l, d)
  {
    set l | l in dirs && !Within(l, d)
  }

  function FilesWithout(files: map<Loc, Bytes>, d: Loc): (r: map<Loc, Bytes>)
    ensures forall l :: l in r <==> l in files && !Within(l, d)
    ensures forall l :: l in r ==> r[l] == files[l]
  {
    map l | l in files && !Within(l, d) :: files[l]
  }

  function DirsMoved(dirs: set<Loc>, src: Loc, dst: Loc): (r: set<Loc>)
    ensures forall l {:trigger l in r} :: l in r <==>
      (l in dirs && !Within(l, src)) || (Within(l, dst) && Rebase(l, dst, src) in dirs)
  {
    var moved := set l | l in dirs && Within(l, src) :: Rebase(l, src, dst);
    forall l | Within(l, dst) && Rebase(l, dst, src) in dirs ensures l in moved {
      RebaseBack(l, dst, src);
    }
    forall x | x in dirs && Within(x, src) ensures Within(Rebase(x, src, dst), dst) && Rebase(Rebase(x, src, dst), dst, src) in dirs {
      RebaseBack(x, src, dst);
    }
    DirsWithout(dirs, src) + moved
  }

  /** File contents after a directory move; the moved entries keep their bytes. */
  function FilesMoved(files: map<Loc, Bytes>, src: Loc, dst: Loc): (r: map<Loc, Bytes>)
    ensures forall l {:trigger l in r} :: l in r <==>
      (l in files && !Within(l, src)) || (Within(l, dst) && Rebase(l, dst, src) in files)
    ensures forall l {:trigger r[l]} :: l in r ==>
      r[l] == if Within(l, dst) && Rebase(l, dst, src) in files then files[Rebase(l, dst, src)] else files[l]
  {
    var targets := set x | x in files && Within(x, src) :: Rebase(x, src, dst);
    forall l | l in targets ensures Rebase(l, dst, src) in files {
      var x :| x in files && Within(x, src) && l == Rebase(x, src, dst);
      RebaseBack(x, src, dst);
    }
    var moved := map l | l in targets :: files[Rebase(l, dst, src)];
    forall l | Within(l, dst) && Rebase(l, dst, src) in files ensures l in moved && moved[l] == files[Rebase(l, dst, src)] {
      RebaseBack(l, dst, src);
    }
    forall x | x in files && Within(x, src) ensures Within(Rebase(x, src, dst), dst) && Rebase(Rebase(x, src, dst), dst, src) == x {
      RebaseBack(x, src, dst);
    }
    FilesWithout(files, src) + moved
  }

  // The tree shape is preserved by every primitive that succeeds.

  lemma {:induction false} AncestorIsDir(dirs: set<Loc>, files: map<Loc, Bytes>, l: Loc, a: Loc)
    requires WellFormed(dirs, files)
    requires l in dirs || l in files
    requires a.root == l.root && a.path < l.path
    ensures IsDirIn(dirs, a)
    decreases |l.path|
  {
    var p := Parent(l);
    if a.path != p.path {
      assert a.path < p.path by {
        assert |a.path| < |p.path|;
        assert forall i :: 0 <= i < |a.path| ==> a.path[i] == l.path[i] == p.path[i];
      }
      AncestorIsDir(dirs, files, p, a);
    }
  }

  /** Nothing can lie beneath a location that does not exist. */
  lemma NothingBelowMissing(dirs: set<Loc>, files: map<Loc, Bytes>, d: Loc)
    requires WellFormed(dirs, files)
    requires !IsDirIn(dirs, d) && d !in files
    ensures forall l :: Within(l, d) ==> l !in dirs && l !in files
  {
    forall l | Within(l, d) && (l in dirs || l in files) ensures false {
      if l != d {
        AncestorIsDir(dirs, files, l, d);
      }
    }
  }

  /** Every directory above an existing directory exists. */
  lemma AncestryOfDir(dirs: set<Loc>, files: map<Loc, Bytes>, d: Loc)
    requires WellFormed(dirs, files) && IsDirIn(dirs, d)
    ensures Ancestry(d) <= dirs
  {
    forall a | a in Ancestry(d) ensures a in dirs {
      if a != d {
        AncestorIsDir(dirs, files, d, a);
      }
    }
  }

  lemma CreatePreserves(dirs: set<Loc>, files: map<Loc, Bytes>, d: Loc)
    requires WellFormed(dirs, files)
    requires forall a :: a in Ancestry(d) ==> a !in files
    ensures WellFormed(dirs + Ancestry(d), files)
  {
    forall a | a in Ancestry(d) ensures IsDirIn(dirs + Ancestry(d), Parent(a)) {
      assert Parent(a).path <= a.path;
    }
  }

  lemma RemovePreserves(dirs: set<Loc>, files: map<Loc, Bytes>, d: Loc)
    requires WellFormed(dirs, files)
    ensures WellFormed(DirsWithout(dirs, d), FilesWithout(files, d))
  {
    forall l: Loc | l.path != [] && !Within(l, d) ensures !Within(Parent(l), d) {
      assert Parent(l).path <= l.path;
    }
  }

  /** Below `dst`, an entry other than `dst` itself has its parent moved along with it. */
  lemma MovedParent(src: Loc, dst: Loc, l: Loc)
    requires Within(l, dst) && l != dst
    ensures Rebase(l, dst, src).path != [] && Within(Parent(l), dst)
    ensures Rebase(Parent(l), dst, src) == Parent(Rebase(l, dst, src))
    ensures Within(Parent(Rebase(l, dst, src)), src)
  {
    assert |l.path| > |dst.path|;
    assert dst.path <= Parent(l).path;
    var x := Rebase(l, dst, src);
    assert Parent(l).path[|dst.path|..] == l.path[|dst.path|..][..|l.path| - |dst.path| - 1];
    assert src.path <= Parent(x).path;
  }

  lemma OutsideParent(l: Loc, src: Loc)
    requires l.path != [] && !Within(l, src)
    ensures !Within(Parent(l), src)
  {
    assert Parent(l).path <= l.path;
  }

  /** Where the parent of a location in the moved tree comes from. */
  lemma MovedParentIsDir(dirs: set<Loc>, files: map<Loc, Bytes>, src: Loc, dst: Loc, l: Loc)
    requires WellFormed(dirs, files)
    requires dst.path != [] && src in dirs && IsDirIn(dirs, Parent(dst)) && !Within(Parent(dst), src)
    requires ((l in dirs || l in files) && !Within(l, src)) || (Within(l, dst) && (Rebase(l, dst, src) in dirs || Rebase(l, dst, src) in files))
    ensures l.path != [] && IsDirIn(DirsMoved(dirs, src, dst), Parent(l))
  {
    var dirs' := DirsMoved(dirs, src, dst);
    if (l in dirs || l in files) && !Within(l, src) {
      OutsideParent(l, src);
    } else if l != dst {
      RebaseBack(l, dst, src);
      MovedParent(src, dst, l);
      var x := Rebase(l, dst, src);
      RebaseBack(Parent(x), src, dst);
      assert Parent(x) in dirs;
    } else {
      assert Rebase(l, dst, src) == src by {
        assert src.path + l.path[|dst.path|..] == src.path;
      }
      assert Parent(l) == Parent(dst);
    }
  }

  lemma MovePreserves(dirs: set<Loc>, files: map<Loc, Bytes>, src: Loc, dst: Loc)
    requires WellFormed(dirs, files)
    requires src in dirs && !IsDirIn(dirs, dst) && dst !in files && IsDirIn(dirs, Parent(dst))
    requires !Within(dst, src)
    ensures WellFormed(DirsMoved(dirs, src, dst), FilesMoved(files, src, dst))
  {
    var dirs', files' := DirsMoved(dirs, src, dst), FilesMoved(files, src, dst);
    NothingBelowMissing(dirs, files, dst);
    assert !Within(Parent(dst), src);
    forall l | l in dirs' ensures l.path != [] && IsDirIn(dirs', Parent(l)) {
      MovedParentIsDir(dirs, files, src, dst, l);
    }
    forall l | l in files' ensures l.path != [] && IsDirIn(dirs', Parent(l)) && l !in dirs' {
      MovedParentIsDir(dirs, files, src, dst, l);
      if Within(l, dst) && Rebase(l, dst, src) in files {
        RebaseBack(l, dst, src);
      }
    }
  }

  /** Nothing, file or directory, sits directly inside `d`. */
  ghost predicate NoChildren(dirs: set<Loc>, files: map<Loc, Bytes>, d: Loc) {
    forall n :: Loc(d.root, d.path + [n]) !in dirs && Loc(d.root, d.path + [n]) !in files
  }

  /** A directory with nothing directly inside it has nothing anywhere beneath it. */
  lemma EmptyDirHoldsNothing(dirs: set<Loc>, files: map<Loc, Bytes>, d: Loc)
    requires WellFormed(dirs, files) && NoChildren(dirs, files, d)
    ensures forall l :: Within(l, d) && l != d ==> l !in dirs && l !in files
  {
    forall l | Within(l, d) && l != d && (l in dirs || l in files)
      ensures false
    {
      var k := |d.path|;
      assert |l.path| > k;
      var c := Loc(d.root, l.path[..k + 1]);
      assert c.path == d.path + [l.path[k]];
      if c != l {
        AncestorIsDir(dirs, files, l, c);
      }
    }
  }

  /** The host filesystem. */
  class FileSystem {
    var dirs: set<Loc>
    var files: map<Loc, Bytes>
    /** Ids of the session log files present in the logs directory (the logging sink's only modelled state). */
    var sessionLogs: set<string>
    /** SHA-256 of a file's bytes, left opaque. */
    const sha256: Bytes -> Digest

    ghost predicate Valid()
      reads this
    {
      WellFormed(dirs, files)
    }

    constructor (sha256: Bytes -> Digest, dirs: set<Loc>, files: map<Loc, Bytes>)
      requires WellFormed(dirs, files)
      ensures Valid() && sessionLogs == {}
      ensures this.sha256 == sha256 && this.dirs == dirs && this.files == files
    {
      this.sha256 := sha256;
      this.dirs := dirs;
      this.files := files;
      sessionLogs := {};
    }

    /** `Directory.Exists(l)`. */
    predicate IsDir(l: Loc)
      reads this
    {
      IsDirIn(dirs, l)
    }

    /** Something, file or directory, is at `l`. */
    predicate Occupied(l: Loc)
      reads this
    {
      IsDir(l) || l in files
    }

    function Tree(r: Root): Tree
      reads this
    {
      View(dirs, files, r)
    }

    /** The fingerprint of some content, as `GetFileHash` renders it. */
    function Fingerprint(content: Bytes): (h: string)
      ensures |h| == 2 * DigestSize
      ensures forall i :: 0 <= i < |h| ==> IsLowerHexDigit(h[i])
    {
      RenderedDigestShape(sha256(content));
      Render(sha256(content))
    }

    /**
     * `GetFileHash(f)`; `None` stands for the exception `File.OpenRead` throws when `f` is
     * missing or is a directory (the method has no try/catch).
     */
    function GetFileHash(f: Loc): (h: Option<string>)
      reads this
      ensures h.Some? <==> f in files
      ensures h.Some? ==> |h.value| == 2 * DigestSize
    {
      if f in files then Some(Fingerprint(files[f])) else None
    }

    /** `Directory.GetFiles(r, "*", SearchOption.AllDirectories)`, as paths relative to `r`. */
    method GetFiles(r: Root) returns (paths: set<Path>)
      ensures forall p :: p in paths <==> Loc(r, p) in files
    {
      paths := set l | l in files && l.root == r :: l.path;
    }

    /** `Directory.GetDirectories(r, "*", SearchOption.AllDirectories)`, as paths relative to `r`. */
    method GetDirectories(r: Root) returns (paths: set<Path>)
      ensures forall p :: p in paths <==> Loc(r, p) in dirs
    {
      paths := set l | l in dirs && l.root == r :: l.path;
    }

    /**
     * `Directory.GetDirectories(d)`: the names of the directories directly inside `d`; `None`
     * when `d` does not exist, where .NET throws.
     */
    method GetTopDirectories(d: Loc) returns (r: Option<set<Name>>)
      ensures r.Some? <==> IsDir(d)
      ensures r.Some? ==> forall n :: n in r.value <==> Loc(d.root, d.path + [n]) in dirs
    {
      if !IsDir(d) {
        return None;
      }
      var k := |d.path|;
      var names := set l | l in dirs && l.root == d.root && |l.path| == k + 1 && l.path[..k] == d.path :: l.path[k];
      forall n | Loc(d.root, d.path + [n]) in dirs ensures n in names {
        var l := Loc(d.root, d.path + [n]);
        assert l.path[..k] == d.path && l.path[k] == n;
      }
      forall n | n in names ensures Loc(d.root, d.path + [n]) in dirs {
        var l :| l in dirs && l.root == d.root && |l.path| == k + 1 && l.path[..k] == d.path && l.path[k] == n;
        assert l.path == d.path + [n];
      }
      r := Some(names);
    }

    /**
     * `Directory.GetFiles(d)`: the names of the files directly inside `d`; `None` when `d` does
     * not exist, where .NET throws.
     */
    method GetTopFiles(d: Loc) returns (r: Option<set<Name>>)
      ensures r.Some? <==> IsDir(d)
      ensures r.Some? ==> forall n :: n in r.value <==> Loc(d.root, d.path + [n]) in files
    {
      if !IsDir(d) {
        return None;
      }
      var k := |d.path|;
      var names := set l | l in files && l.root == d.root && |l.path| == k + 1 && l.path[..k] == d.path :: l.path[k];
      forall n | Loc(d.root, d.path + [n]) in files ensures n in names {
        var l := Loc(d.root, d.path + [n]);
        assert l.path[..k] == d.path && l.path[k] == n;
      }
      forall n | n in names ensures Loc(d.root, d.path + [n]) in files {
        var l :| l in files && l.root == d.root && |l.path| == k + 1 && l.path[..k] == d.path && l.path[k] == n;
        assert l.path == d.path + [n];
      }
      r := Some(names);
    }

    /** `Logger.CreateNewSessionLog(id)`: the session's log file exists afterwards. */
    method CreateSessionLog(id: string)
      modifies this
      ensures sessionLogs == old(sessionLogs) + {id}
      ensures dirs == old(dirs) && files == old(files)
    {
      sessionLogs := sessionLogs + {id};
    }

    /** `Logger.DeleteCurrentSessionLog(id)`: the session's log file is gone afterwards. */
    method DeleteSessionLog(id: string)
      modifies this
      ensures sessionLogs == old(sessionLogs) - {id}
      ensures dirs == old(dirs) && files == old(files)
    {
      sessionLogs := sessionLogs - {id};
    }

    /** `CreateDirectory(d)`: creates `d` and every missing directory above it. */
    method CreateDirectory(d: Loc) returns (ok: bool)
      requires Valid()
      modifies this
      ensures Valid()
      ensures files == old(files) && sessionLogs == old(sessionLogs)
      ensures ok ==> forall a :: a in Ancestry(d) ==> a !in old(files)
      ensures dirs == if ok then old(dirs) + Ancestry(d) else old(dirs)
    {
      var hostOk: bool := *;
      ok := hostOk && forall a | a in Ancestry(d) :: a !in files;
      if ok {
        CreatePreserves(dirs, files, d);
        dirs := dirs + Ancestry(d);
      }
    }

    /**
     * `EnsureParentDirectoriesExist(p)`: creates `p`'s parent directory (and those above it)
     * when it is missing; true when it exists afterwards.
     */
    method EnsureParentDirectoriesExist(p: Loc) returns (ok: bool)
      requires Valid()
      modifies this
      ensures Valid()
      ensures files == old(files) && sessionLogs == old(sessionLogs)
      ensures p.path == [] || old(IsDir(Parent(p))) ==> ok && dirs == old(dirs)
      ensures p.path != [] && !old(IsDir(Parent(p))) ==>
        dirs == if ok then old(dirs) + Ancestry(Parent(p)) else old(dirs)
      ensures p.path != [] ==> (ok <==> IsDir(Parent(p)))
    {
      if p.path != [] && !IsDir(Parent(p)) {
        ok := CreateDirectory(Parent(p));
      } else {
        ok := true;
      }
    }

    /**
     * `MoveFile(src, dst)`: ensures `dst`'s parent exists (ignoring whether that worked), then
     * `File.Move`, which needs `src` to be a file, `dst` to be free and its parent to exist.
     */
    method MoveFile(src: Loc, dst: Loc) returns (ok: bool)
      requires Valid()
      modifies this
      ensures Valid()
      ensures sessionLogs == old(sessionLogs)
      ensures dirs == old(dirs) || (dst.path != [] && dirs == old(dirs) + Ancestry(Parent(dst)))
      ensures ok ==> src in old(files) && dst !in old(files) && dst !in old(dirs) && dst.path != []
      ensures files == if ok then old(files) - {src} + map[dst := old(files)[src]] else old(files)
    {
      var _ := EnsureParentDirectoriesExist(dst);
      var hostOk: bool := *;
      ok := hostOk && src in files && !Occupied(dst) && IsDir(Parent(dst));
      if ok {
        files := files - {src} + map[dst := files[src]];
      }
    }

    /** `CopyFile(src, dst)`: `File.Copy` without overwrite; creates no directories. */
    method CopyFile(src: Loc, dst: Loc) returns (ok: bool)
      requires Valid()
      modifies this
      ensures Valid()
      ensures dirs == old(dirs) && sessionLogs == old(sessionLogs)
      ensures ok ==> src in old(files) && !old(Occupied(dst)) && old(IsDir(Parent(dst)))
      ensures files == if ok then old(files)[dst := old(files)[src]] else old(files)
    {
      var hostOk: bool := *;
      ok := hostOk && src in files && !Occupied(dst) && IsDir(Parent(dst));
      if ok {
        files := files[dst := files[src]];
      }
    }

    /**
     * `DeleteFile(f)`: `File.Delete`, which fails on a directory or a missing parent
     * directory and does nothing when the file is already absent.
     */
    method DeleteFile(f: Loc) returns (ok: bool)
      requires Valid()
      modifies this
      ensures Valid()
      ensures dirs == old(dirs) && sessionLogs == old(sessionLogs)
      ensures ok ==> f.path != [] && f !in old(dirs) && old(IsDir(Parent(f)))
      ensures files == if ok then old(files) - {f} else old(files)
    {
      var hostOk: bool := *;
      ok := hostOk && f.path != [] && f !in dirs && IsDir(Parent(f));
      if ok {
        files := files - {f};
      }
    }

    /**
     * `MoveDirectory(src, dst)`: ensures `dst`'s parent exists (ignoring whether that worked),
     * then `Directory.Move`, which carries the whole subtree and needs `dst` to be free and
     * outside `src`.
     */
    method MoveDirectory(src: Loc, dst: Loc) returns (ok: bool)
      requires Valid()
      modifies this
      ensures Valid()
      ensures sessionLogs == old(sessionLogs)
      ensures ok ==> src in old(dirs) && !old(Occupied(dst)) && !Within(dst, src)
      ensures !ok ==> files == old(files)
      ensures !ok ==> dirs == old(dirs) || (dst.path != [] && dirs == old(dirs) + Ancestry(Parent(dst)))
      ensures ok ==> dst.path != [] && files == FilesMoved(old(files), src, dst)
      ensures ok ==> dirs == DirsMoved(old(dirs) + Ancestry(Parent(dst)), src, dst)
    {
      var _ := EnsureParentDirectoriesExist(dst);
      var hostOk: bool := *;
      ok := hostOk && src in dirs && !Occupied(dst) && IsDir(Parent(dst)) && !Within(dst, src);
      if ok {
        AncestryOfDir(dirs, files, Parent(dst));
        assert dirs == old(dirs) + Ancestry(Parent(dst));
        MovePreserves(dirs, files, src, dst);
        dirs, files := DirsMoved(dirs, src, dst), FilesMoved(files, src, dst);
      }
    }

    /** `DeleteDirectory(d)`: `Directory.Delete(d, true)`, removing the whole subtree. */
    method DeleteDirectory(d: Loc) returns (ok: bool)
      requires Valid()
      modifies this
      ensures Valid()
      ensures sessionLogs == old(sessionLogs)
      ensures ok ==> d in old(dirs)
      ensures dirs == if ok then DirsWithout(old(dirs), d) else old(dirs)
      ensures files == if ok then FilesWithout(old(files), d) else old(files)
    {
      var hostOk: bool := *;
      ok := hostOk && d in dirs;
      if ok {
        RemovePreserves(dirs, files, d);
        dirs, files := DirsWithout(dirs, d), FilesWithout(files, d);
      }
    }
  }
}
