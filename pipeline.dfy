/**
 * `write_to_s3(labels, meshes, root_dir, bucket, s3_prefix)`: stage the
 * precomputed volume, the meshes and the segment properties in
 * `root_dir/upload_dir`, upload that directory, then delete it.
 */
module Pipeline {
  import opened Json
  import opened Filesystem
  import opened PosixPath
  import opened IoUtils
  import opened Meshing

  /**
   * How `write_to_s3` ends: the objects put and the disk after; an exception
   * from the local steps; or an exception from the object store during `to_s3`.
   */
  datatype Outcome =
    | Uploaded(puts: map<string, Contents>, fs: FileSystem)
    | Failed(error: OsError, fs: FileSystem)
    | UploadRejected(fs: FileSystem)

  const UploadDirName: Name := "upload_dir"
  const MeshName: Name := "mesh"

  /** `os.path.join(root_dir, "upload_dir")`: the staging directory. */
  function UploadDir(root: Path): Path {
    root + [UploadDirName]
  }

  /** `os.path.join(upload_dir, "mesh")`: where `save_mesh` writes. */
  function MeshDir(root: Path): Path {
    UploadDir(root) + [MeshName]
  }

  /**
   * The staging layout: `mesh` and `segment_properties` sit side by side in
   * `upload_dir`, next to its `info`, and neither lies inside the other.
   */
  lemma StagingLayout(root: Path)
    ensures Parent(UploadDir(root)) == root
    ensures Parent(MeshDir(root)) == UploadDir(root) && Parent(PropertyDir(UploadDir(root))) == UploadDir(root)
    ensures !AtOrBelow(MeshDir(root), PropertyDir(UploadDir(root)))
    ensures !AtOrBelow(PropertyDir(UploadDir(root)), MeshDir(root))
    ensures InfoPath(UploadDir(root)) != MeshDir(root) && InfoPath(UploadDir(root)) != PropertyDir(UploadDir(root))
    ensures MeshDir(["data"]) == ["data", "upload_dir", "mesh"]
  {
    var u := UploadDir(root);
    assert MeshDir(root)[|u|] != PropertyDir(u)[|u|];
    assert InfoPath(u)[|u|] != MeshDir(root)[|u|];
  }

  /**
   * `to_precomputed(path, block)` as the disk sees it: the volume's `info`
   * document lands in `path/info`, then `edit_info(path)` patches it. The
   * volume's chunk files are not modelled; `volume` is the `info` object
   * the writer produces.
   */
  function ToPrecomputed(fs: FileSystem, dir: Path, volume: map<string, Json>): (r: Step)
    ensures r.Done? <==> IsDirAt(fs, dir) && !IsDirAt(fs, InfoPath(dir))
    ensures r.Done? ==> r.fs == fs[InfoPath(dir) := File(Doc(JObj(PatchInfo(volume))))]
    ensures r.Raised? ==> r.fs == fs
    ensures Valid(fs) ==> Valid(r.fs)
  {
    assert Parent(InfoPath(dir)) == dir;
    var w := WriteFile(fs, InfoPath(dir), Doc(JObj(volume)));
    if w.Raised? then w else EditInfo(w.fs, dir)
  }

  /** `upload_dir` after the volume and the meshes are staged. */
  predicate MeshesStaged(f: FileSystem, u: Path, volume: map<string, Json>, meshes: seq<MeshEntry>) {
    var m := u + [MeshName];
    && IsDirAt(f, u)
    && InfoPath(u) in f && f[InfoPath(u)] == File(Doc(JObj(PatchInfo(volume))))
    && IsDirAt(f, m)
    && InfoPath(m) in f && f[InfoPath(m)] == File(Doc(MeshInfo()))
    && (forall i :: 0 <= i < |meshes| ==>
      && ManifestPath(m, meshes[i].id) in f
      && f[ManifestPath(m, meshes[i].id)] == File(Doc(Manifest(meshes[i].id))))
    && (forall i :: 0 <= i < |meshes| ==>
      && FragmentPath(m, meshes[i].id) in f
      && f[FragmentPath(m, meshes[i].id)] == File(Bytes(meshes[i].fragment)))
  }

  /** `upload_dir` when everything is staged and the upload begins. */
  predicate Staged(f: FileSystem, u: Path, volume: map<string, Json>, meshes: seq<MeshEntry>) {
    && MeshesStaged(f, u, volume, meshes)
    && IsDirAt(f, PropertyDir(u))
    && InfoPath(PropertyDir(u)) in f
    && f[InfoPath(PropertyDir(u))] == File(Doc(SegmentPropertiesInfo(Ids(meshes))))
  }

  /** The key under which the entry at `rel`, relative to the uploaded directory, is put. */
  function UploadKey(prefix: string, rel: seq<Name>): string
    requires |rel| > 0
  {
    Join(prefix, JoinNames(rel))
  }

  /** Object 12's manifest, staged at `upload_dir/mesh/12:0`, goes to `<prefix>/mesh/12:0`. */
  lemma UploadKeyExample()
    ensures UploadKey("labels/run1", [MeshName, ManifestName(12)]) == "labels/run1/mesh/12:0"
    ensures UploadKey("labels/run1/", [PropertiesName, InfoName]) == "labels/run1/segment_properties/info"
  {
    MeshNamesExample();
    assert [MeshName, ManifestName(12)][1..] == [ManifestName(12)];
    assert JoinNames([MeshName, ManifestName(12)]) == "mesh/12:0";
    assert "labels/run1"[|"labels/run1"| - 1] != '/';
    assert [PropertiesName, InfoName][1..] == [InfoName];
    assert JoinNames([PropertiesName, InfoName]) == "segment_properties/info";
    assert "labels/run1/"[|"labels/run1/"| - 1] == '/';
  }

  /** `key` was put with body `body`. */
  predicate PutAt(puts: map<string, Contents>, key: string, body: Contents) {
    key in puts && puts[key] == body
  }

  /** The objects under `prefix` that uploading a staged directory puts, with their bodies. */
  predicate PutsStaged(puts: map<string, Contents>, prefix: string, volume: map<string, Json>, meshes: seq<MeshEntry>) {
    && PutAt(puts, UploadKey(prefix, [InfoName]), Doc(JObj(PatchInfo(volume))))
    && PutsMeshLayer(puts, prefix, meshes)
    && PutAt(puts, UploadKey(prefix, [PropertiesName]) + "/", Bytes([]))
    && PutAt(puts, UploadKey(prefix, [PropertiesName, InfoName]), Doc(SegmentPropertiesInfo(Ids(meshes))))
  }

  /** The mesh directory's marker, its `info`, and every object's manifest and fragment. */
  predicate PutsMeshLayer(puts: map<string, Contents>, prefix: string, meshes: seq<MeshEntry>) {
    && PutAt(puts, UploadKey(prefix, [MeshName]) + "/", Bytes([]))
    && PutAt(puts, UploadKey(prefix, [MeshName, InfoName]), Doc(MeshInfo()))
    && (forall i :: 0 <= i < |meshes| ==>
      PutAt(puts, UploadKey(prefix, [MeshName, ManifestName(meshes[i].id)]), Doc(Manifest(meshes[i].id))))
    && (forall i :: 0 <= i < |meshes| ==>
      PutAt(puts, UploadKey(prefix, [MeshName, FragmentName(meshes[i].id)]), Bytes(meshes[i].fragment)))
  }

  /** Uploading a staged directory puts the volume, the mesh layer and the segment properties. */
  lemma StagedUpload(f: FileSystem, u: Path, prefix: string, volume: map<string, Json>, meshes: seq<MeshEntry>)
    requires Staged(f, u, volume, meshes)
    ensures PutsStaged(UploadPlan(f, u, prefix), prefix, volume, meshes)
  {
    PlanFileAt(f, u, prefix, [InfoName]);
    MeshLayerUpload(f, u, prefix, meshes);
    PlanMarkerAt(f, u, prefix, [PropertiesName]);
    assert InfoPath(PropertyDir(u)) == u + [PropertiesName, InfoName];
    PlanFileAt(f, u, prefix, [PropertiesName, InfoName]);
  }

  lemma MeshLayerUpload(f: FileSystem, u: Path, prefix: string, meshes: seq<MeshEntry>)
    requires IsDirAt(f, u + [MeshName])
    requires InfoPath(u + [MeshName]) in f && f[InfoPath(u + [MeshName])] == File(Doc(MeshInfo()))
    requires forall i :: 0 <= i < |meshes| ==>
      && ManifestPath(u + [MeshName], meshes[i].id) in f
      && f[ManifestPath(u + [MeshName], meshes[i].id)] == File(Doc(Manifest(meshes[i].id)))
    requires forall i :: 0 <= i < |meshes| ==>
      && FragmentPath(u + [MeshName], meshes[i].id) in f
      && f[FragmentPath(u + [MeshName], meshes[i].id)] == File(Bytes(meshes[i].fragment))
    ensures PutsMeshLayer(UploadPlan(f, u, prefix), prefix, meshes)
  {
    var plan := UploadPlan(f, u, prefix);
    PlanMarkerAt(f, u, prefix, [MeshName]);
    assert InfoPath(u + [MeshName]) == u + [MeshName, InfoName];
    PlanFileAt(f, u, prefix, [MeshName, InfoName]);
    forall i | 0 <= i < |meshes|
      ensures PutAt(plan, UploadKey(prefix, [MeshName, ManifestName(meshes[i].id)]), Doc(Manifest(meshes[i].id)))
      ensures PutAt(plan, UploadKey(prefix, [MeshName, FragmentName(meshes[i].id)]), Bytes(meshes[i].fragment))
    {
      var id := meshes[i].id;
      assert ManifestPath(u + [MeshName], id) == u + [MeshName, ManifestName(id)];
      assert FragmentPath(u + [MeshName], id) == u + [MeshName, FragmentName(id)];
      PlanFileAt(f, u, prefix, [MeshName, ManifestName(id)]);
      PlanFileAt(f, u, prefix, [MeshName, FragmentName(id)]);
    }
  }

  /** A file at `rel` in the uploaded directory is put, with its contents, under `UploadKey(prefix, rel)`. */
  lemma PlanFileAt(f: FileSystem, u: Path, prefix: string, rel: seq<Name>)
    requires |rel| > 0 && u + rel in f && f[u + rel].File?
    ensures PutAt(UploadPlan(f, u, prefix), UploadKey(prefix, rel), f[u + rel].contents)
  {
    assert (u + rel)[..|u|] == u && (u + rel)[|u|..] == rel;
    UploadPlanFile(f, u, prefix, u + rel);
  }

  /** A directory at `rel` in the uploaded directory gets an empty marker at `UploadKey(prefix, rel) + "/"`. */
  lemma PlanMarkerAt(f: FileSystem, u: Path, prefix: string, rel: seq<Name>)
    requires |rel| > 0 && IsDirAt(f, u + rel)
    ensures PutAt(UploadPlan(f, u, prefix), UploadKey(prefix, rel) + "/", Bytes([]))
  {
    assert (u + rel)[..|u|] == u && (u + rel)[|u|..] == rel;
    UploadPlanMarker(f, u, prefix, u + rel);
  }

  // ------------------------------------------------------------ write_to_s3

  /** On a tree, nothing lies at or below a path that is absent. */
  lemma AbsentHasNothingBelow(fs: FileSystem, u: Path)
    requires Valid(fs) && u !in fs
    ensures forall p :: p in fs ==> !AtOrBelow(u, p)
  {
    forall p | p in fs && AtOrBelow(u, p) ensures false {
      assert p[..|p|] == p;
      DirAbove(fs, u, p);
    }
  }

  /** A fresh `upload_dir` holding only `info` leaves every path of the mesh directory free. */
  lemma FreshMeshDir(f: FileSystem, u: Path, meshes: seq<MeshEntry>)
    requires IsDirAt(f, u)
    requires forall x :: x in f && AtOrBelow(u, x) ==> x == u || x == InfoPath(u)
    ensures SaveMeshSucceeds(f, meshes, u + [MeshName])
  {
    var m := u + [MeshName];
    assert m[..|u|] == u && Parent(m) == u;
    assert m[|u|] != InfoPath(u)[|u|];
    assert InfoPath(m)[..|u|] == u;
    forall j | 0 <= j < |meshes|
      ensures !IsDirAt(f, ManifestPath(m, meshes[j].id)) && !IsDirAt(f, FragmentPath(m, meshes[j].id))
    {
      assert ManifestPath(m, meshes[j].id)[..|u|] == u;
      assert FragmentPath(m, meshes[j].id)[..|u|] == u;
    }
  }

  /** After saving into a fresh `upload_dir`, the segment-properties paths are still free. */
  lemma FreshPropertyDir(f: FileSystem, u: Path, meshes: seq<MeshEntry>)
    requires forall x :: x in f && AtOrBelow(u, x) ==> x == u || x == InfoPath(u)
    ensures PropertyDir(u) !in SavedMesh(f, meshes, u + [MeshName])
    ensures InfoPath(PropertyDir(u)) !in SavedMesh(f, meshes, u + [MeshName])
  {
    var m, sp := u + [MeshName], PropertyDir(u);
    SavedMeshFrame(f, meshes, m);
    assert sp[..|u|] == u && InfoPath(sp)[..|u|] == u;
    assert sp[|u|] != InfoPath(u)[|u|];
    assert sp[|u|] != m[|u|];
    if sp in MeshDirPaths(m, meshes) {
      MeshDirPathsInside(m, meshes, sp);
    }
    if InfoPath(sp) in MeshDirPaths(m, meshes) {
      MeshDirPathsInside(m, meshes, InfoPath(sp));
    }
  }

  /** Entries of the mesh directory are not below the segment-properties directory. */
  lemma MeshNotInProperties(u: Path, x: Path)
    requires AtOrBelow(u + [MeshName], x)
    ensures !AtOrBelow(PropertyDir(u), x)
  {
    assert x[|u|] == (u + [MeshName])[|u|];
  }

  /** Writing the segment properties keeps what was staged before it. */
  lemma MeshesStagedKept(f: FileSystem, f': FileSystem, u: Path, volume: map<string, Json>, meshes: seq<MeshEntry>)
    requires MeshesStaged(f, u, volume, meshes) && OnlyBelow(f, f', PropertyDir(u))
    ensures MeshesStaged(f', u, volume, meshes)
  {
    var m, sp := u + [MeshName], PropertyDir(u);
    assert InfoPath(u)[|u|] != sp[|u|];
    assert m[..|m|] == m && InfoPath(m)[..|m|] == m;
    MeshNotInProperties(u, m);
    MeshNotInProperties(u, InfoPath(m));
    forall j | 0 <= j < |meshes|
      ensures !AtOrBelow(sp, ManifestPath(m, meshes[j].id)) && !AtOrBelow(sp, FragmentPath(m, meshes[j].id))
    {
      assert ManifestPath(m, meshes[j].id)[..|m|] == m;
      assert FragmentPath(m, meshes[j].id)[..|m|] == m;
      MeshNotInProperties(u, ManifestPath(m, meshes[j].id));
      MeshNotInProperties(u, FragmentPath(m, meshes[j].id));
    }
  }

  /** Saving the meshes into `upload_dir/mesh` keeps the volume's `info` beside them. */
  lemma SavedStaged(f: FileSystem, u: Path, volume: map<string, Json>, meshes: seq<MeshEntry>)
    requires IsDirAt(f, u) && InfoPath(u) in f && f[InfoPath(u)] == File(Doc(JObj(PatchInfo(volume))))
    requires DistinctIds(Ids(meshes)) && SaveMeshSucceeds(f, meshes, u + [MeshName])
    ensures MeshesStaged(SavedMesh(f, meshes, u + [MeshName]), u, volume, meshes)
  {
    var m := u + [MeshName];
    SavedMeshFiles(f, meshes, m);
    SavedMeshFrame(f, meshes, m);
    assert InfoPath(u)[|u|] != m[|u|];
    if u in MeshDirPaths(m, meshes) {
      MeshDirPathsInside(m, meshes, u);
    }
    if InfoPath(u) in MeshDirPaths(m, meshes) {
      MeshDirPathsInside(m, meshes, InfoPath(u));
    }
  }

  /** `mkdir(upload_dir)` then `to_precomputed(upload_dir, labels)`. */
  method PrepareUploadDir(fs: FileSystem, volume: map<string, Json>, u: Path) returns (r: Step)
    requires Valid(fs) && u != []
    ensures Valid(r.fs) && OnlyBelow(fs, r.fs, u)
    ensures r.Done? ==> IsDirAt(r.fs, u) && InfoPath(u) in r.fs && r.fs[InfoPath(u)] == File(Doc(JObj(PatchInfo(volume))))
    ensures IsDirAt(fs, Parent(u)) && u !in fs ==>
      && r.Done?
      && forall x :: x in r.fs && AtOrBelow(u, x) ==> x == u || x == InfoPath(u)
  {
    assert InfoPath(u)[..|u|] == u && u[..|u|] == u;
    if u !in fs {
      AbsentHasNothingBelow(fs, u);
    }
    r := Mkdir(fs, u);
    if r.Raised? {
      return;
    }
    r := ToPrecomputed(r.fs, u, volume);
  }

  /**
   * `write_to_s3` up to `save_mesh`: `mkdir(upload_dir)`, then
   * `to_precomputed(upload_dir, labels)`, then `save_mesh(meshes, mesh_dir)`.
   */
  method StageVolumeAndMeshes(fs: FileSystem, volume: map<string, Json>, meshes: seq<MeshEntry>, root: Path)
    returns (r: Step, ids: seq<nat>)
    requires Valid(fs) && DistinctIds(Ids(meshes))
    ensures Valid(r.fs)
    ensures OnlyBelow(fs, r.fs, UploadDir(root))
    ensures r.Done? ==> ids == Ids(meshes) && MeshesStaged(r.fs, UploadDir(root), volume, meshes)
    ensures IsDirAt(fs, root) && UploadDir(root) !in fs ==>
      && r.Done?
      && PropertyDir(UploadDir(root)) !in r.fs
      && InfoPath(PropertyDir(UploadDir(root))) !in r.fs
  {
    var u, m := UploadDir(root), MeshDir(root);
    ids := [];
    assert Parent(u) == root && m[..|u|] == u;
    r := PrepareUploadDir(fs, volume, u);
    if r.Raised? {
      return;
    }
    ghost var f2 := r.fs;
    if IsDirAt(fs, root) && u !in fs {
      FreshMeshDir(f2, u, meshes);
      FreshPropertyDir(f2, u, meshes);
    }
    r, ids := SaveMesh(r.fs, meshes, m);
    OnlyBelowWiden(f2, r.fs, u, m);
    OnlyBelowTrans(fs, f2, r.fs, u);
    if r.Raised? {
      return;
    }
    assert ids == Ids(meshes);
    SavedStaged(f2, u, volume, meshes);
  }

  /** `write_to_s3` up to `write_segment_properties(upload_dir, obj_ids)`, with `save_mesh` returning the ids. */
  method StageAll(fs: FileSystem, volume: map<string, Json>, meshes: seq<MeshEntry>, root: Path) returns (r: Step)
    requires Valid(fs) && DistinctIds(Ids(meshes))
    ensures Valid(r.fs)
    ensures OnlyBelow(fs, r.fs, UploadDir(root))
    ensures r.Done? ==> Staged(r.fs, UploadDir(root), volume, meshes)
    ensures IsDirAt(fs, root) && UploadDir(root) !in fs ==> r.Done?
  {
    var u := UploadDir(root);
    var ids;
    r, ids := StageVolumeAndMeshes(fs, volume, meshes, root);
    if r.Raised? {
      return;
    }
    ghost var f3 := r.fs;
    var sp := PropertyDir(u);
    assert sp[..|u|] == u && InfoPath(sp)[..|sp|] == sp && sp[..|sp|] == sp;
    r := WriteSegmentProperties(r.fs, u, ids);
    assert OnlyBelow(f3, r.fs, sp);
    OnlyBelowWiden(f3, r.fs, u, sp);
    OnlyBelowTrans(fs, f3, r.fs, u);
    if r.Raised? {
      return;
    }
    MeshesStagedKept(f3, r.fs, u, volume, meshes);
  }

  /**
   * `write_to_s3(labels, meshes, root_dir, bucket, s3_prefix)`, with the
   * volume's `info` document for `labels` and with `uploadFails` standing for
   * whether the object store rejects one of the puts. Completing means the
   * staged tree was uploaded and `upload_dir` deleted; an exception from
   * `to_s3` skips the deletion.
   */
  method WriteToS3(fs: FileSystem, volume: map<string, Json>, meshes: seq<MeshEntry>, root: Path, prefix: string, uploadFails: bool)
    returns (out: Outcome)
    requires Valid(fs) && DistinctIds(Ids(meshes))
    ensures Valid(out.fs)
    ensures SameOutside(fs, out.fs, UploadDir(root))
    ensures out.Uploaded? ==> !uploadFails && PutsStaged(out.puts, prefix, volume, meshes)
    ensures out.Uploaded? ==> forall q :: q in out.fs ==> !AtOrBelow(UploadDir(root), q)
    ensures out.UploadRejected? ==> uploadFails && Staged(out.fs, UploadDir(root), volume, meshes)
    ensures IsDirAt(fs, root) && UploadDir(root) !in fs ==> if uploadFails then out.UploadRejected? else out.Uploaded?
  {
    var u := UploadDir(root);
    var r := StageAll(fs, volume, meshes, root);
    OnlyBelowSame(fs, r.fs, u);
    if r.Raised? {
      return Failed(r.error, r.fs);
    }
    var puts := ToS3(r.fs, u, prefix);
    StagedUpload(r.fs, u, prefix, volume, meshes);
    if uploadFails {
      return UploadRejected(r.fs);
    }
    r := RemoveTree(r.fs, u);
    out := Uploaded(puts, r.fs);
  }

  /**
   * `write_to_s3` as the source has it: `save_mesh` has no `return`, so
   * `obj_ids` is `None`, and `write_segment_properties(upload_dir, None)`
   * raises `TypeError` at `list(map(str, None))`, before it writes anything.
   */
  method WriteToS3AsWritten(fs: FileSystem, volume: map<string, Json>, meshes: seq<MeshEntry>, root: Path, prefix: string)
    returns (out: Outcome)
    requires Valid(fs) && DistinctIds(Ids(meshes))
    ensures out.Failed?
    ensures SameOutside(fs, out.fs, UploadDir(root))
    ensures IsDirAt(fs, root) && UploadDir(root) !in fs ==>
      out.error == TypeError && MeshesStaged(out.fs, UploadDir(root), volume, meshes)
  {
    var r, saved := StageVolumeAndMeshes(fs, volume, meshes, root);
    OnlyBelowSame(fs, r.fs, UploadDir(root));
    if r.Raised? {
      return Failed(r.error, r.fs);
    }
    out := Failed(TypeError, r.fs);
  }
}
