/**
 * The repository's own logic in `io_utils`: `mkdir`, the format dispatch of
 * `read_block`, the patch `edit_info` applies to the volume's `info`, the
 * segment-properties document, and the object keys `to_s3` derives while
 * walking the staging tree.
 */
module IoUtils {
  import opened Wrappers
  import opened Json
  import opened Decimal
  import opened Filesystem
  import opened PosixPath

  // ---------------------------------------------------------------- mkdir

  /** `mkdir(path_to_dir)`: create the directory unless something already exists there. */
  function Mkdir(fs: FileSystem, p: Path): (r: Step)
    ensures r.Done? <==> p in fs || (p != [] && IsDirAt(fs, Parent(p)))
    ensures p in fs ==> r == Done(fs)
    ensures r.Done? ==> p in r.fs && (IsDirAt(r.fs, p) <==> !(p in fs && fs[p].File?))
    ensures r.Done? ==> r.fs.Keys == fs.Keys + {p} && forall q :: q in fs ==> r.fs[q] == fs[q]
    ensures r.Raised? ==> r.fs == fs
    ensures Valid(fs) ==> Valid(r.fs)
  {
    if p in fs then Done(fs) else MakeDir(fs, p)
  }

  /** Calling `mkdir` a second time changes nothing, whatever the first call did. */
  lemma MkdirIdempotent(fs: FileSystem, p: Path)
    ensures Mkdir(Mkdir(fs, p).fs, p) == Mkdir(fs, p)
  {
  }

  // ----------------------------------------------------------- read_block

  /** `t` occurs in `s` starting at index `i`. */
  predicate OccursAt(t: string, s: string, i: int) {
    0 <= i && i + |t| <= |s| && s[i..i + |t|] == t
  }

  /** Python's `t in s` on strings: `t` occurs in `s` at some position. */
  ghost predicate Occurs(t: string, s: string) {
    exists i :: OccursAt(t, s, i)
  }

  /** The substring test, computed by sliding along `s`. */
  function Contains(s: string, t: string): bool {
    if |t| > |s| then false
    else s[..|t|] == t || (|s| > 0 && Contains(s[1..], t))
  }

  lemma {:induction false} ContainsOccurs(s: string, t: string)
    ensures Contains(s, t) <==> Occurs(t, s)
  {
    if |t| <= |s| && s[..|t|] == t {
      assert OccursAt(t, s, 0);
    } else if |t| <= |s| && |s| > 0 {
      ContainsOccurs(s[1..], t);
      if Occurs(t, s) {
        var i :| OccursAt(t, s, i);
        assert i > 0;
        assert s[1..][i - 1..i - 1 + |t|] == s[i..i + |t|];
        assert OccursAt(t, s[1..], i - 1);
      }
      if Occurs(t, s[1..]) {
        var i :| OccursAt(t, s[1..], i);
        assert s[1..][i..i + |t|] == s[i + 1..i + 1 + |t|];
        assert OccursAt(t, s, i + 1);
      }
    }
  }

  /** A string lacking one of `t`'s characters cannot contain `t`. */
  lemma AbsentChar(t: string, s: string, c: char)
    requires c in t && c !in s
    ensures !Occurs(t, s)
  {
  }

  /** The two readers `read_block` chooses between. */
  datatype BlockReader = TiffReader | N5Reader

  /**
   * The branch `read_block(path)` takes: TIFF when `"tif"` occurs anywhere in
   * the path, otherwise N5 when `".n5"` occurs; otherwise the function falls
   * off its end and returns `None`.
   */
  function ReadBlockReader(path: string): (r: Option<BlockReader>)
    ensures r == Some(TiffReader) <==> Occurs("tif", path)
    ensures r == Some(N5Reader) <==> !Occurs("tif", path) && Occurs(".n5", path)
    ensures r == None <==> !Occurs("tif", path) && !Occurs(".n5", path)
  {
    ContainsOccurs(path, "tif");
    ContainsOccurs(path, ".n5");
    if Contains(path, "tif") then Some(TiffReader)
    else if Contains(path, ".n5") then Some(N5Reader)
    else None
  }

  /** The TIFF test comes first: an N5 store whose path mentions "tif" is handed to the TIFF reader. */
  lemma ReadBlockTiffFirst()
    ensures ReadBlockReader("/data/motif.n5") == Some(TiffReader)
    ensures ReadBlockReader("/data/block.n5") == Some(N5Reader)
    ensures ReadBlockReader("/data/block.zarr") == None
  {
    assert OccursAt("tif", "/data/motif.n5", 8);
    assert OccursAt(".n5", "/data/block.n5", 11);
    AbsentChar("tif", "/data/block.n5", 'f');
    AbsentChar("tif", "/data/block.zarr", 'f');
    AbsentChar(".n5", "/data/block.zarr", '5');
  }

  // ------------------------------------------------------------ edit_info

  /** The three keys `edit_info` sets. */
  const CrossLinkKeys: set<string> := {"type", "mesh", "segment_properties"}

  /** `info["type"] = ...; info["mesh"] = ...; info["segment_properties"] = ...` on a JSON object. */
  function PatchInfo(info: map<string, Json>): (r: map<string, Json>)
    ensures r.Keys == info.Keys + CrossLinkKeys
    ensures r["type"] == JStr("segmentation")
    ensures r["mesh"] == JStr("mesh")
    ensures r["segment_properties"] == JStr("segment_properties")
    ensures forall k :: k in info && k !in CrossLinkKeys ==> r[k] == info[k]
  {
    info["type" := JStr("segmentation")]["mesh" := JStr("mesh")]["segment_properties" := JStr("segment_properties")]
  }

  lemma PatchInfoIdempotent(info: map<string, Json>)
    ensures PatchInfo(PatchInfo(info)) == PatchInfo(info)
  {
    var once := PatchInfo(info);
    var twice := PatchInfo(once);
    assert twice.Keys == once.Keys;
    forall k | k in once ensures twice[k] == once[k] {
      if k !in CrossLinkKeys {
        assert twice[k] == once[k];
      }
    }
  }

  /** The name of every `info` document in the layout. */
  const InfoName: Name := "info"

  function InfoPath(dir: Path): Path {
    dir + [InfoName]
  }

  /**
   * The condition under which `edit_info(dir)` completes: `dir/info` holds a
   * JSON object (anything else raises on reading or on item assignment) and
   * `dir` is a directory, so the file can be written back.
   */
  predicate HasInfoObject(fs: FileSystem, dir: Path) {
    IsDirAt(fs, dir) && InfoPath(dir) in fs && fs[InfoPath(dir)].File?
    && fs[InfoPath(dir)].contents.Doc? && fs[InfoPath(dir)].contents.json.JObj?
  }

  /** `edit_info(precomputed_dir)`: read `info`, set the three cross-link keys, write it back. */
  function EditInfo(fs: FileSystem, dir: Path): (r: Step)
    ensures r.Done? <==> HasInfoObject(fs, dir)
    ensures r.Done? ==> r.fs == fs[InfoPath(dir) := File(Doc(JObj(PatchInfo(fs[InfoPath(dir)].contents.json.fields))))]
    ensures r.Raised? ==> r.fs == fs
    ensures Valid(fs) ==> Valid(r.fs)
  {
    var path := InfoPath(dir);
    match ReadJson(fs, path)
    case Err(e) => Raised(e, fs)
    case Ok(info) =>
      if !info.JObj? then Raised(TypeError, fs)
      else WriteFile(fs, path, Doc(JObj(PatchInfo(info.fields))))
  }

  /** Patching an already patched `info` rewrites the same document. */
  lemma EditInfoIdempotent(fs: FileSystem, dir: Path)
    ensures EditInfo(EditInfo(fs, dir).fs, dir) == EditInfo(fs, dir)
  {
    if HasInfoObject(fs, dir) {
      PatchInfoIdempotent(fs[InfoPath(dir)].contents.json.fields);
    }
  }

  // ---------------------------------------------- write_segment_properties

  /** `list(map(str, seg_ids))` */
  function Labels(ids: seq<nat>): (r: seq<Json>)
    ensures |r| == |ids|
    ensures forall i :: 0 <= i < |ids| ==> r[i] == JStr(NatToString(ids[i]))
  {
    if ids == [] then [] else [JStr(NatToString(ids[0]))] + Labels(ids[1..])
  }

  /** The segment-properties `info` document for `seg_ids`. */
  function SegmentPropertiesInfo(ids: seq<nat>): (r: Json)
    ensures Member(r, "@type") == Some(JStr("neuroglancer_segment_properties"))
    ensures InlineIds(r) == Some(Labels(ids))
    ensures Properties(r).Some? && |Properties(r).value| == 1
    ensures Member(Properties(r).value[0], "id") == Some(JStr("label"))
    ensures Member(Properties(r).value[0], "type") == Some(JStr("label"))
    ensures Member(Properties(r).value[0], "values") == Some(JArr(InlineIds(r).value))
  {
    var labels := Labels(ids);
    JObj(map[
      "@type" := JStr("neuroglancer_segment_properties"),
      "inline" := JObj(map[
        "ids" := JArr(labels),
        "properties" := JArr([JObj(map[
          "id" := JStr("label"),
          "type" := JStr("label"),
          "values" := JArr(labels)])])])])
  }

  /** `info["inline"]["ids"]`, when it is a list. */
  function InlineIds(info: Json): Option<seq<Json>> {
    match Member(info, "inline")
    case Some(inline) =>
      (match Member(inline, "ids")
       case Some(JArr(items)) => Some(items)
       case _ => None)
    case None => None
  }

  /** `info["inline"]["properties"]`, when it is a list. */
  function Properties(info: Json): Option<seq<Json>> {
    match Member(info, "inline")
    case Some(inline) =>
      (match Member(inline, "properties")
       case Some(JArr(items)) => Some(items)
       case _ => None)
    case None => None
  }

  /** Read a list of labels back as object ids: each must be the decimal string of one. */
  function ParseLabels(items: seq<Json>): Option<seq<nat>> {
    if items == [] then Some([])
    else if !items[0].JStr? || ParseNat(items[0].s).None? then None
    else
      match ParseLabels(items[1..])
      case None => None
      case Some(rest) => Some([ParseNat(items[0].s).value] + rest)
  }

  /** The viewer recovers exactly `seg_ids`, in order, from the inline id list. */
  lemma {:induction false} ParseLabelsOfLabels(ids: seq<nat>)
    ensures ParseLabels(Labels(ids)) == Some(ids)
  {
    if ids != [] {
      ParseNatOfNatToString(ids[0]);
      assert Labels(ids)[1..] == Labels(ids[1..]);
      ParseLabelsOfLabels(ids[1..]);
      assert ids == [ids[0]] + ids[1..];
    }
  }

  lemma SegmentPropertiesRoundTrip(ids: seq<nat>)
    ensures InlineIds(SegmentPropertiesInfo(ids)).Some?
    ensures ParseLabels(InlineIds(SegmentPropertiesInfo(ids)).value) == Some(ids)
  {
    ParseLabelsOfLabels(ids);
  }

  const PropertiesName: Name := "segment_properties"

  function PropertyDir(root: Path): Path {
    root + [PropertiesName]
  }

  /**
   * `write_segment_properties(root_dir, seg_ids)`: `mkdir(root_dir/segment_properties)`,
   * then write the document to `root_dir/segment_properties/info`.
   */
  function WriteSegmentProperties(fs: FileSystem, root: Path, ids: seq<nat>): (r: Step)
    ensures r.Done? <==>
      (IsDirAt(fs, PropertyDir(root)) || (PropertyDir(root) !in fs && IsDirAt(fs, root)))
      && !IsDirAt(fs, InfoPath(PropertyDir(root)))
    ensures r.Done? ==> IsDirAt(r.fs, PropertyDir(root))
    ensures r.Done? ==> InfoPath(PropertyDir(root)) in r.fs
    ensures r.Done? ==> r.fs[InfoPath(PropertyDir(root))] == File(Doc(SegmentPropertiesInfo(ids)))
    ensures r.Done? ==> r.fs.Keys == fs.Keys + {PropertyDir(root), InfoPath(PropertyDir(root))}
    ensures r.Done? ==> forall q :: q in fs && q != InfoPath(PropertyDir(root)) ==> r.fs[q] == fs[q]
    ensures r.Raised? && Valid(fs) ==> r.fs == fs
    ensures Valid(fs) ==> Valid(r.fs)
  {
    var info := SegmentPropertiesInfo(ids);
    var dir := PropertyDir(root);
    var made := Mkdir(fs, dir);
    if made.Raised? then made else WriteFile(made.fs, InfoPath(dir), Doc(info))
  }

  // ---------------------------------------------------------------- to_s3

  /** `os.path.join(s3_prefix, os.path.relpath(local_path, directory_path))` */
  function FileKey(prefix: string, d: Path, p: Path): string
    requires Below(d, p)
  {
    Join(prefix, RelPath(d, p))
  }

  /** The same key with `"/"` appended: the marker `to_s3` puts for a directory. */
  function MarkerKey(prefix: string, d: Path, p: Path): string
    requires Below(d, p)
  {
    FileKey(prefix, d, p) + "/"
  }

  /** The key under which entry `p` is put: a file under its path, a directory as a marker. */
  function ObjectKey(fs: FileSystem, prefix: string, d: Path, p: Path): string
    requires p in fs && Below(d, p)
  {
    if fs[p].Dir? then MarkerKey(prefix, d, p) else FileKey(prefix, d, p)
  }

  /** The bytes put for entry `p`: the file's contents, or `Body=""` for a directory. */
  function ObjectBody(fs: FileSystem, p: Path): Contents
    requires p in fs
  {
    if fs[p].Dir? then Bytes([]) else fs[p].contents
  }

  /** The entries `os.walk(directory_path)` reports, the directory itself excluded. */
  function Entries(fs: FileSystem, d: Path): set<Path> {
    set p | p in fs && Below(d, p)
  }

  /** File keys never end in "/", marker keys always do. */
  lemma FileKeyNoSlash(prefix: string, d: Path, p: Path)
    requires Below(d, p)
    ensures |FileKey(prefix, d, p)| > 0
    ensures FileKey(prefix, d, p)[|FileKey(prefix, d, p)| - 1] != '/'
  {
    JoinLast(prefix, RelPath(d, p));
  }

  /** Distinct entries get distinct keys: no object overwrites another. */
  lemma ObjectKeyInjective(fs: FileSystem, prefix: string, d: Path, p: Path, q: Path)
    requires p in fs && Below(d, p) && q in fs && Below(d, q)
    ensures ObjectKey(fs, prefix, d, p) == ObjectKey(fs, prefix, d, q) <==> p == q
  {
    var kp, kq := ObjectKey(fs, prefix, d, p), ObjectKey(fs, prefix, d, q);
    if kp == kq {
      FileKeyNoSlash(prefix, d, p);
      FileKeyNoSlash(prefix, d, q);
      assert fs[p].Dir? == fs[q].Dir? by {
        assert kp[|kp| - 1] == '/' <==> fs[p].Dir?;
        assert kq[|kq| - 1] == '/' <==> fs[q].Dir?;
      }
      if fs[p].Dir? {
        assert FileKey(prefix, d, p) == kp[..|kp| - 1] == FileKey(prefix, d, q);
      }
      JoinInjective(prefix, RelPath(d, p), RelPath(d, q));
      RelPathInjective(d, p, q);
    }
  }

  /** The objects a walk over the entries in `s` puts, as a map from key to body. */
  function Uploads(fs: FileSystem, prefix: string, d: Path, s: set<Path>): map<string, Contents>
    requires forall p :: p in s ==> p in fs && Below(d, p)
  {
    assert forall p, q :: p in s && q in s && ObjectKey(fs, prefix, d, p) == ObjectKey(fs, prefix, d, q) ==> p == q by {
      forall p, q | p in s && q in s && ObjectKey(fs, prefix, d, p) == ObjectKey(fs, prefix, d, q) ensures p == q {
        ObjectKeyInjective(fs, prefix, d, p, q);
      }
    }
    map p | p in s :: ObjectKey(fs, prefix, d, p) := ObjectBody(fs, p)
  }

  /** Everything `to_s3(directory_path, bucket, s3_prefix)` puts. */
  function UploadPlan(fs: FileSystem, d: Path, prefix: string): map<string, Contents> {
    Uploads(fs, prefix, d, Entries(fs, d))
  }

  /** An entry walked is put under its key with its body. */
  lemma UploadsAt(fs: FileSystem, prefix: string, d: Path, s: set<Path>, p: Path)
    requires forall q :: q in s ==> q in fs && Below(d, q)
    requires p in s
    ensures ObjectKey(fs, prefix, d, p) in Uploads(fs, prefix, d, s)
    ensures Uploads(fs, prefix, d, s)[ObjectKey(fs, prefix, d, p)] == ObjectBody(fs, p)
  {
    forall q | q in s && ObjectKey(fs, prefix, d, q) == ObjectKey(fs, prefix, d, p) ensures q == p {
      ObjectKeyInjective(fs, prefix, d, p, q);
    }
  }

  /** Every regular file below the directory is uploaded, byte for byte, under its relative path. */
  lemma UploadPlanFile(fs: FileSystem, d: Path, prefix: string, p: Path)
    requires p in fs && Below(d, p) && fs[p].File?
    ensures FileKey(prefix, d, p) in UploadPlan(fs, d, prefix)
    ensures UploadPlan(fs, d, prefix)[FileKey(prefix, d, p)] == fs[p].contents
  {
    UploadsAt(fs, prefix, d, Entries(fs, d), p);
  }

  /** Every directory below it gets an empty marker object at its relative path plus "/". */
  lemma UploadPlanMarker(fs: FileSystem, d: Path, prefix: string, p: Path)
    requires p in fs && Below(d, p) && fs[p].Dir?
    ensures MarkerKey(prefix, d, p) in UploadPlan(fs, d, prefix)
    ensures UploadPlan(fs, d, prefix)[MarkerKey(prefix, d, p)] == Bytes([])
  {
    UploadsAt(fs, prefix, d, Entries(fs, d), p);
  }

  /** Nothing else is put: each key belongs to exactly one entry below the directory. */
  lemma UploadPlanKeys(fs: FileSystem, d: Path, prefix: string, k: string)
    requires k in UploadPlan(fs, d, prefix)
    ensures exists p :: p in Entries(fs, d) && ObjectKey(fs, prefix, d, p) == k
  {
  }

  /** A file key never equals a marker key. */
  lemma FileKeyNotMarker(prefix: string, d: Path, p: Path, q: Path)
    requires Below(d, p) && Below(d, q)
    ensures FileKey(prefix, d, p) != MarkerKey(prefix, d, q)
  {
    FileKeyNoSlash(prefix, d, p);
  }

  /** The walked directory itself (whose relative path is ".") gets no marker. */
  lemma NoRootMarker(fs: FileSystem, d: Path, prefix: string)
    ensures Join(prefix, ".") + "/" !in UploadPlan(fs, d, prefix)
  {
    var root := Join(prefix, ".") + "/";
    if root in UploadPlan(fs, d, prefix) {
      var p :| p in Entries(fs, d) && ObjectKey(fs, prefix, d, p) == root;
      FileKeyNoSlash(prefix, d, p);
      assert FileKey(prefix, d, p) == root[..|root| - 1];
      JoinInjective(prefix, RelPath(d, p), ".");
      assert false;
    }
  }

  /** Adding one walked entry adds its object to the uploads. */
  lemma UploadsAdd(fs: FileSystem, prefix: string, d: Path, s: set<Path>, p: Path)
    requires forall q :: q in s ==> q in fs && Below(d, q)
    requires p in fs && Below(d, p)
    ensures Uploads(fs, prefix, d, s + {p}) == Uploads(fs, prefix, d, s)[ObjectKey(fs, prefix, d, p) := ObjectBody(fs, p)]
  {
    var big := Uploads(fs, prefix, d, s + {p});
    var small := Uploads(fs, prefix, d, s)[ObjectKey(fs, prefix, d, p) := ObjectBody(fs, p)];
    assert big.Keys == small.Keys;
    forall k | k in big ensures big[k] == small[k] {
      var q :| q in s + {p} && ObjectKey(fs, prefix, d, q) == k;
      UploadsAt(fs, prefix, d, s + {p}, q);
      if q != p {
        ObjectKeyInjective(fs, prefix, d, p, q);
        UploadsAt(fs, prefix, d, s, q);
      }
    }
  }

  /** The directories at or below `d`: the roots `os.walk(d)` descends into. */
  function DirsFrom(fs: FileSystem, d: Path): set<Path> {
    set q | q in fs && fs[q].Dir? && AtOrBelow(d, q)
  }

  /** The entries directly inside the directories of `v`. */
  function ChildrenOf(fs: FileSystem, v: set<Path>): set<Path> {
    set p | p in fs && p != [] && Parent(p) in v
  }

  /** A directory whose parent has been walked has been walked itself; so all have. */
  lemma {:induction false} WalkReachesDir(fs: FileSystem, d: Path, visited: set<Path>, q: Path)
    requires Valid(fs) && d in visited
    requires forall r :: r in DirsFrom(fs, d) && r != d && Parent(r) in visited ==> r in visited
    requires q in DirsFrom(fs, d)
    ensures q in visited
    decreases |q|
  {
    if q != d {
      var pq := Parent(q);
      assert pq[..|d|] == q[..|d|];
      assert pq in DirsFrom(fs, d);
      WalkReachesDir(fs, d, visited, pq);
    }
  }

  /** The entries inside walked directories are exactly the entries below `d`, once all are walked. */
  lemma WalkCoversEntries(fs: FileSystem, d: Path, visited: set<Path>)
    requires Valid(fs) && d in visited && visited <= DirsFrom(fs, d)
    requires forall r :: r in DirsFrom(fs, d) && r != d && Parent(r) in visited ==> r in visited
    ensures ChildrenOf(fs, visited) == Entries(fs, d)
  {
    forall p | p in Entries(fs, d) ensures p in ChildrenOf(fs, visited) {
      var pp := Parent(p);
      assert pp[..|d|] == p[..|d|];
      assert pp in DirsFrom(fs, d);
      WalkReachesDir(fs, d, visited, pp);
    }
    forall p | p in ChildrenOf(fs, visited) ensures p in Entries(fs, d) {
      assert p[..|d|] == Parent(p)[..|d|];
    }
  }

  /** The files directly inside `root`, as `os.walk` lists them. */
  function FilesIn(fs: FileSystem, root: Path): set<Path> {
    set p | p in Children(fs, root) && fs[p].File?
  }

  /** The subdirectories directly inside `root`, as `os.walk` lists them. */
  function DirsIn(fs: FileSystem, root: Path): set<Path> {
    set p | p in Children(fs, root) && fs[p].Dir?
  }

  lemma ChildrenBelow(fs: FileSystem, d: Path, root: Path)
    requires AtOrBelow(d, root)
    ensures Children(fs, root) <= Entries(fs, d)
  {
    forall p | p in Children(fs, root) ensures p[..|d|] == d {
      assert p[..|d|] == Parent(p)[..|d|];
    }
  }

  /** The inner loop over `files`: upload each one under its key. */
  method PutFiles(fs: FileSystem, d: Path, prefix: string, files: set<Path>, ghost done: set<Path>, puts0: map<string, Contents>)
    returns (puts: map<string, Contents>)
    requires files <= Entries(fs, d) && done <= Entries(fs, d)
    requires forall p :: p in files ==> fs[p].File?
    requires puts0 == Uploads(fs, prefix, d, done)
    ensures puts == Uploads(fs, prefix, d, done + files)
  {
    puts := puts0;
    var todo := files;
    while todo != {}
      invariant todo <= files
      invariant puts == Uploads(fs, prefix, d, done + (files - todo))
      decreases todo
    {
      var p :| p in todo;
      UploadsAdd(fs, prefix, d, done + (files - todo), p);
      puts := puts[FileKey(prefix, d, p) := fs[p].contents];
      assert done + (files - (todo - {p})) == done + (files - todo) + {p};
      todo := todo - {p};
    }
  }

  /** The inner loop over `dirs`: put an empty marker for each one. */
  method PutMarkers(fs: FileSystem, d: Path, prefix: string, dirs: set<Path>, ghost done: set<Path>, puts0: map<string, Contents>)
    returns (puts: map<string, Contents>)
    requires dirs <= Entries(fs, d) && done <= Entries(fs, d)
    requires forall p :: p in dirs ==> fs[p].Dir?
    requires puts0 == Uploads(fs, prefix, d, done)
    ensures puts == Uploads(fs, prefix, d, done + dirs)
  {
    puts := puts0;
    var todo := dirs;
    while todo != {}
      invariant todo <= dirs
      invariant puts == Uploads(fs, prefix, d, done + (dirs - todo))
      decreases todo
    {
      var p :| p in todo;
      UploadsAdd(fs, prefix, d, done + (dirs - todo), p);
      puts := puts[MarkerKey(prefix, d, p) := Bytes([])];
      assert done + (dirs - (todo - {p})) == done + (dirs - todo) + {p};
      todo := todo - {p};
    }
  }

  /**
   * The state of the walk: `pending` holds the directories still to be
   * listed, `visited` those already listed; every directory whose parent has
   * been listed is pending or listed, and nothing is listed twice.
   */
  ghost predicate WalkState(fs: FileSystem, d: Path, pending: set<Path>, visited: set<Path>) {
    && pending <= DirsFrom(fs, d) && visited <= DirsFrom(fs, d)
    && pending !! visited
    && d in pending + visited
    && (forall q :: q in pending + visited && q != d ==> q != [] && Parent(q) in visited)
    && (forall q :: q in DirsFrom(fs, d) && q != d && Parent(q) in visited ==> q in pending + visited)
  }

  /** Listing one pending directory and queueing its subdirectories keeps the walk's state. */
  lemma WalkStep(fs: FileSystem, d: Path, pending: set<Path>, visited: set<Path>, root: Path)
    requires WalkState(fs, d, pending, visited) && root in pending
    ensures WalkState(fs, d, pending - {root} + DirsIn(fs, root), visited + {root})
    ensures DirsFrom(fs, d) - (visited + {root}) < DirsFrom(fs, d) - visited
  {
    var pending', visited' := pending - {root} + DirsIn(fs, root), visited + {root};
    forall q | q in DirsIn(fs, root) ensures q in DirsFrom(fs, d) && q !in visited {
      assert q[..|d|] == Parent(q)[..|d|];
    }
    assert root in DirsFrom(fs, d) - visited;
  }

  /** Walking one more directory adds exactly its children to what has been seen. */
  lemma ChildrenOfAdd(fs: FileSystem, visited: set<Path>, root: Path)
    ensures ChildrenOf(fs, visited + {root}) == ChildrenOf(fs, visited) + FilesIn(fs, root) + DirsIn(fs, root)
  {
  }

  /**
   * `to_s3(directory_path, bucket, s3_prefix)`: walk the tree top-down; in each
   * directory put every file under its key, then a marker for every
   * subdirectory, and descend into the subdirectories. The result is the map
   * of keys to bodies put; the client that sends them is left out.
   */
  method ToS3(fs: FileSystem, d: Path, prefix: string) returns (puts: map<string, Contents>)
    requires Valid(fs)
    ensures puts == UploadPlan(fs, d, prefix)
  {
    puts := map[];
    if !IsDirAt(fs, d) {
      // os.walk of a missing path or of a file yields nothing
      forall p | p in Entries(fs, d) ensures false {
        DirAbove(fs, d, p);
      }
      return;
    }
    var pending: set<Path> := {d};
    ghost var visited: set<Path> := {};
    assert d in DirsFrom(fs, d);
    while pending != {}
      invariant WalkState(fs, d, pending, visited)
      invariant ChildrenOf(fs, visited) <= Entries(fs, d)
      invariant puts == Uploads(fs, prefix, d, ChildrenOf(fs, visited))
      decreases DirsFrom(fs, d) - visited
    {
      var root :| root in pending;
      WalkStep(fs, d, pending, visited, root);
      pending := pending - {root};
      ChildrenBelow(fs, d, root);
      var files, dirs := FilesIn(fs, root), DirsIn(fs, root);
      puts := PutFiles(fs, d, prefix, files, ChildrenOf(fs, visited), puts);
      puts := PutMarkers(fs, d, prefix, dirs, ChildrenOf(fs, visited) + files, puts);
      ChildrenOfAdd(fs, visited, root);
      pending := pending + dirs;
      visited := visited + {root};
    }
    WalkCoversEntries(fs, d, visited);
  }
}
