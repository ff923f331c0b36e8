/**
 * The local disk as the core sees it through `os.path.exists`, `os.mkdir`,
 * `open(..., "w")`, `json.load` and `shutil.rmtree`: a map from a path (a
 * sequence of names below the root) to a directory or a file. A file holds
 * either opaque bytes or a JSON document. Every operation returns the disk
 * after it, together with the exception it raised, if any; a raising
 * operation leaves the disk as it was.
 */
module Filesystem {
  import opened Wrappers
  import opened Json

  /** What a POSIX path string splits into at its separators. */
  predicate ValidName(s: string) {
    |s| > 0 && '/' !in s && s != "." && s != ".."
  }

  type Name = s: string | ValidName(s) witness "info"

  /** Names from the root down; `[]` is the root. */
  type Path = seq<Name>

  datatype Contents = Bytes(data: seq<bv8>) | Doc(json: Json)

  datatype Node = Dir | File(contents: Contents)

  type FileSystem = map<Path, Node>

  /** The Python exceptions the modelled calls can raise. */
  datatype OsError =
    | FileNotFound
    | FileExists
    | NotADirectory
    | IsADirectory
    | JsonDecode
    | TypeError

  /** The disk after an operation, and whether the operation raised. */
  datatype Step = Done(fs: FileSystem) | Raised(error: OsError, fs: FileSystem)

  function Parent(p: Path): Path
    requires p != []
  {
    p[..|p| - 1]
  }

  predicate IsDirAt(fs: FileSystem, p: Path) {
    p in fs && fs[p].Dir?
  }

  /** `p` lies strictly below `d`. */
  predicate Below(d: Path, p: Path) {
    |d| < |p| && p[..|d|] == d
  }

  /** `p` is `d` or lies below it. */
  predicate AtOrBelow(d: Path, p: Path) {
    |d| <= |p| && p[..|d|] == d
  }

  /** Going from `fs` to `fs'` added entries and changed only what lies at or below `dir`. */
  ghost predicate OnlyBelow(fs: FileSystem, fs': FileSystem, dir: Path) {
    && fs.Keys <= fs'.Keys
    && forall q :: q in fs' && !AtOrBelow(dir, q) ==> q in fs && fs'[q] == fs[q]
  }

  /** Outside `dir`, `fs` and `fs'` hold the same entries. */
  ghost predicate SameOutside(fs: FileSystem, fs': FileSystem, dir: Path) {
    forall q :: !AtOrBelow(dir, q) ==> (q in fs' <==> q in fs) && (q in fs ==> fs'[q] == fs[q])
  }

  /** Changes confined below `d'` are confined below any `d` above it. */
  lemma OnlyBelowWiden(fs: FileSystem, fs': FileSystem, d: Path, d': Path)
    requires AtOrBelow(d, d') && OnlyBelow(fs, fs', d')
    ensures OnlyBelow(fs, fs', d)
  {
  }

  lemma OnlyBelowSame(fs: FileSystem, fs': FileSystem, d: Path)
    requires OnlyBelow(fs, fs', d)
    ensures SameOutside(fs, fs', d)
  {
  }

  lemma OnlyBelowTrans(fs: FileSystem, fs': FileSystem, fs'': FileSystem, dir: Path)
    requires OnlyBelow(fs, fs', dir) && OnlyBelow(fs', fs'', dir)
    ensures OnlyBelow(fs, fs'', dir)
  {
  }

  /** A disk is a tree: the root is a directory, every other entry sits in a directory. */
  ghost predicate Valid(fs: FileSystem) {
    IsDirAt(fs, []) && forall p :: p in fs && p != [] ==> IsDirAt(fs, Parent(p))
  }

  /** The entries directly inside `d`. */
  function Children(fs: FileSystem, d: Path): set<Path> {
    set p | p in fs && p != [] && Parent(p) == d
  }

  /**
   * The error raised when resolving `p` stops before `p`: walking down from
   * the root, the first proper prefix that is not a directory decides. A
   * missing one raises `FileNotFoundError`, a file `NotADirectoryError`.
   * When every proper prefix is a directory, `p` itself is missing.
   */
  function LookupError(fs: FileSystem, p: Path): OsError {
    if p == [] then FileNotFound else PrefixError(fs, p, 0)
  }

  function PrefixError(fs: FileSystem, p: Path, i: nat): OsError
    requires i < |p|
    decreases |p| - i
  {
    if p[..i] !in fs then FileNotFound
    else if fs[p[..i]].File? then NotADirectory
    else if i + 1 < |p| then PrefixError(fs, p, i + 1)
    else FileNotFound
  }

  /** On a tree, the walk from prefix `i` reports a file exactly when some prefix from `i` on is a file. */
  lemma {:induction false} PrefixErrorKind(fs: FileSystem, p: Path, i: nat)
    requires Valid(fs) && i < |p|
    ensures PrefixError(fs, p, i) == NotADirectory <==>
      exists k :: i <= k < |p| && p[..k] in fs && fs[p[..k]].File?
    decreases |p| - i
  {
    if p[..i] !in fs {
      forall k | i < k < |p| && p[..k] in fs ensures false {
        assert p[..k][..i] == p[..i];
        DirAbove(fs, p[..i], p[..k]);
      }
    } else if fs[p[..i]].Dir? && i + 1 < |p| {
      PrefixErrorKind(fs, p, i + 1);
    }
  }

  /**
   * On a tree, resolving `p` raises `NotADirectoryError` exactly when some
   * proper prefix of `p` is a file, and `FileNotFoundError` otherwise.
   */
  lemma LookupErrorKind(fs: FileSystem, p: Path)
    requires Valid(fs)
    ensures LookupError(fs, p) == NotADirectory <==>
      exists k :: 0 <= k < |p| && p[..k] in fs && fs[p[..k]].File?
    ensures LookupError(fs, p) == NotADirectory || LookupError(fs, p) == FileNotFound
  {
    if p != [] {
      PrefixErrorKind(fs, p, 0);
      PrefixErrorCases(fs, p, 0);
    }
  }

  lemma {:induction false} PrefixErrorCases(fs: FileSystem, p: Path, i: nat)
    requires i < |p|
    ensures PrefixError(fs, p, i) == NotADirectory || PrefixError(fs, p, i) == FileNotFound
    decreases |p| - i
  {
    if p[..i] in fs && fs[p[..i]].Dir? && i + 1 < |p| {
      PrefixErrorCases(fs, p, i + 1);
    }
  }

  /** With a file `a` at the top, paths through `a` raise `NotADirectoryError`; paths beside it `FileNotFoundError`. */
  lemma LookupErrorExample()
    ensures var fs := map[[] := Dir, ["a"] := File(Bytes([]))];
      && MakeDir(fs, ["a", "b", "c"]) == Raised(NotADirectory, fs)
      && ReadJson(fs, ["a", "info"]) == Err(NotADirectory)
      && RemoveTree(fs, ["a", "b"]) == Raised(NotADirectory, fs)
      && MakeDir(fs, ["b", "c"]) == Raised(FileNotFound, fs)
  {
    var fs := map[[] := Dir, ["a"] := File(Bytes([]))];
    assert ["a", "b", "c"][..0] == [] && ["a", "b", "c"][..1] == ["a"];
    assert ["a", "info"][..0] == [] && ["a", "info"][..1] == ["a"];
    assert ["a", "b"][..0] == [] && ["a", "b"][..1] == ["a"];
    assert ["b", "c"][..0] == [] && ["b", "c"][..1] == ["b"] && ["b"] !in fs;
  }

  /** `os.mkdir(p)` */
  function MakeDir(fs: FileSystem, p: Path): (r: Step)
    ensures r.Done? <==> p !in fs && p != [] && IsDirAt(fs, Parent(p))
    ensures r.Done? ==> r.fs.Keys == fs.Keys + {p} && r.fs[p] == Dir
    ensures r.Done? ==> forall q :: q in fs ==> r.fs[q] == fs[q]
    ensures r.Raised? ==> r.fs == fs
    ensures Valid(fs) ==> Valid(r.fs)
  {
    if p in fs then Raised(FileExists, fs)
    else if p == [] || !IsDirAt(fs, Parent(p)) then Raised(LookupError(fs, p), fs)
    else Done(fs[p := Dir])
  }

  /** `with open(p, "w") as f: f.write(...)`: create or truncate a file and fill it. */
  function WriteFile(fs: FileSystem, p: Path, c: Contents): (r: Step)
    ensures r.Done? <==> p != [] && !IsDirAt(fs, p) && IsDirAt(fs, Parent(p))
    ensures r.Done? ==> r.fs.Keys == fs.Keys + {p} && r.fs[p] == File(c)
    ensures r.Done? ==> forall q :: q in fs && q != p ==> r.fs[q] == fs[q]
    ensures r.Raised? ==> r.fs == fs
    ensures Valid(fs) ==> Valid(r.fs)
  {
    if p == [] || IsDirAt(fs, p) then Raised(IsADirectory, fs)
    else if !IsDirAt(fs, Parent(p)) then Raised(LookupError(fs, p), fs)
    else Done(fs[p := File(c)])
  }

  /** `json.load(open(p))` */
  function ReadJson(fs: FileSystem, p: Path): (r: Result<Json, OsError>)
    ensures r.Ok? <==> p in fs && fs[p].File? && fs[p].contents.Doc?
    ensures r.Ok? ==> fs[p] == File(Doc(r.value))
  {
    if p !in fs then Err(LookupError(fs, p))
    else if fs[p].Dir? then Err(IsADirectory)
    else if fs[p].contents.Bytes? then Err(JsonDecode)
    else Ok(fs[p].contents.json)
  }

  /** `shutil.rmtree(p)` */
  function RemoveTree(fs: FileSystem, p: Path): (r: Step)
    ensures r.Done? <==> IsDirAt(fs, p)
    ensures r.Done? ==> forall q :: q in r.fs <==> q in fs && !AtOrBelow(p, q)
    ensures r.Done? ==> forall q :: q in r.fs ==> r.fs[q] == fs[q]
    ensures r.Raised? ==> r.fs == fs
    ensures Valid(fs) && p != [] ==> Valid(r.fs)
  {
    if p !in fs then Raised(LookupError(fs, p), fs)
    else if fs[p].File? then Raised(NotADirectory, fs)
    else Done(map q | q in fs && !AtOrBelow(p, q) :: fs[q])
  }

  /** On a tree, whatever lies below `d` is reached through `d`, so `d` is a directory. */
  lemma {:induction false} DirAbove(fs: FileSystem, d: Path, p: Path)
    requires Valid(fs) && p in fs && Below(d, p)
    ensures IsDirAt(fs, d)
  {
    var q := Parent(p);
    assert IsDirAt(fs, q);
    if |q| > |d| {
      assert q[..|d|] == p[..|d|];
      DirAbove(fs, d, q);
    } else {
      assert q == p[..|d|];
    }
  }
}
