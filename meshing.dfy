/**
 * The mesh directory `meshing.save_mesh` writes in the legacy precomputed
 * mesh layout: one `info` document, and per object id a fragment file
 * `{id}:0:0000000000000000` holding the mesh's encoding and a manifest
 * `{id}:0` naming that fragment. The meshes themselves come from a foreign
 * library; here a mesh is its encoded bytes.
 */
module Meshing {
  import opened Wrappers
  import opened Json
  import opened Decimal
  import opened Filesystem
  import opened IoUtils

  // ----------------------------------------------------------- file names

  const FragmentSuffix: string := ":0:0000000000000000"
  const ManifestSuffix: string := ":0"

  lemma DecimalIsName(n: nat, suffix: string)
    requires |suffix| > 0 && suffix[0] == ':' && '/' !in suffix
    ensures ValidName(NatToString(n) + suffix)
  {
    var s := NatToString(n) + suffix;
    assert s[|NatToString(n)|] == ':';
  }

  /** `f"{obj_id}:0:0000000000000000"` */
  function FragmentName(id: nat): Name {
    DecimalIsName(id, FragmentSuffix);
    NatToString(id) + FragmentSuffix
  }

  /** `f"{obj_id}:{0}"` */
  function ManifestName(id: nat): Name {
    DecimalIsName(id, ManifestSuffix);
    NatToString(id) + ManifestSuffix
  }

  /** Recover the id from a fragment file name. */
  function ParseFragmentName(s: string): Option<nat> {
    if |s| > |FragmentSuffix| && s[|s| - |FragmentSuffix|..] == FragmentSuffix
    then ParseNat(s[..|s| - |FragmentSuffix|])
    else None
  }

  /** Recover the id from a manifest file name. */
  function ParseManifestName(s: string): Option<nat> {
    if |s| > |ManifestSuffix| && s[|s| - |ManifestSuffix|..] == ManifestSuffix
    then ParseNat(s[..|s| - |ManifestSuffix|])
    else None
  }

  lemma ParseFragmentNameOf(id: nat)
    ensures ParseFragmentName(FragmentName(id)) == Some(id)
  {
    var s := FragmentName(id);
    assert s[..|s| - |FragmentSuffix|] == NatToString(id);
    ParseNatOfNatToString(id);
  }

  lemma ParseManifestNameOf(id: nat)
    ensures ParseManifestName(ManifestName(id)) == Some(id)
  {
    var s := ManifestName(id);
    assert s[..|s| - |ManifestSuffix|] == NatToString(id);
    ParseNatOfNatToString(id);
  }

  /** A fragment name never reads as a manifest name: it ends in "00", not ":0". */
  lemma ParseManifestNameOfFragment(id: nat)
    ensures ParseManifestName(FragmentName(id)) == None
  {
    var s := FragmentName(id);
    assert s[|s| - 2] == '0';
  }

  /**
   * The names in a mesh directory identify their file: distinct ids give
   * distinct names of each kind, no manifest is named like a fragment, and
   * neither kind is named "info".
   */
  lemma MeshNamesDistinct(a: nat, b: nat)
    ensures FragmentName(a) == FragmentName(b) <==> a == b
    ensures ManifestName(a) == ManifestName(b) <==> a == b
    ensures ManifestName(a) != FragmentName(b)
    ensures FragmentName(a) != "info" && ManifestName(a) != "info"
  {
    ParseFragmentNameOf(a);
    ParseFragmentNameOf(b);
    ParseManifestNameOf(a);
    ParseManifestNameOf(b);
    ParseManifestNameOfFragment(b);
    assert "info"[2..] != ManifestSuffix;
  }

  /** Object 12's files. */
  lemma MeshNamesExample()
    ensures FragmentName(12) == "12:0:0000000000000000"
    ensures ManifestName(12) == "12:0"
  {
    assert NatToString(12) == "12";
  }

  // --------------------------------------------------------- the documents

  /** `{"@type": "neuroglancer_legacy_mesh"}` */
  function MeshInfo(): Json {
    JObj(map["@type" := JStr("neuroglancer_legacy_mesh")])
  }

  /** `{"fragments": [f"{obj_id}:0:0000000000000000"]}` */
  function Manifest(id: nat): Json {
    JObj(map["fragments" := JArr([JStr(FragmentName(id))])])
  }

  /** The fragment file names a manifest lists. */
  function ManifestFragments(j: Json): Option<seq<string>> {
    match Member(j, "fragments")
    case Some(JArr(items)) =>
      if forall i :: 0 <= i < |items| ==> items[i].JStr?
      then Some(seq(|items|, i requires 0 <= i < |items| => items[i].s))
      else None
    case _ => None
  }

  /** The manifest of `id` names one fragment, and that fragment is `id`'s. */
  lemma ManifestNamesItsFragment(id: nat)
    ensures ManifestFragments(Manifest(id)) == Some([FragmentName(id)])
    ensures ParseFragmentName(ManifestFragments(Manifest(id)).value[0]) == Some(id)
  {
    var items := [JStr(FragmentName(id))];
    assert seq(|items|, i requires 0 <= i < |items| => items[i].s) == [FragmentName(id)];
    ParseFragmentNameOf(id);
  }

  function ManifestPath(dir: Path, id: nat): Path {
    dir + [ManifestName(id)]
  }

  function FragmentPath(dir: Path, id: nat): Path {
    dir + [FragmentName(id)]
  }

  /** `write_mesh_info(mesh_dir)` */
  function WriteMeshInfo(fs: FileSystem, dir: Path): (r: Step)
    ensures r.Done? <==> IsDirAt(fs, dir) && !IsDirAt(fs, InfoPath(dir))
    ensures r.Done? ==> InfoPath(dir) in r.fs
    ensures r.Done? ==> r.fs[InfoPath(dir)] == File(Doc(JObj(map["@type" := JStr("neuroglancer_legacy_mesh")])))
    ensures r.Done? ==> r.fs.Keys == fs.Keys + {InfoPath(dir)}
    ensures r.Done? ==> forall q :: q in fs && q != InfoPath(dir) ==> r.fs[q] == fs[q]
    ensures r.Raised? ==> r.fs == fs
    ensures Valid(fs) ==> Valid(r.fs)
  {
    assert Parent(InfoPath(dir)) == dir;
    WriteFile(fs, InfoPath(dir), Doc(MeshInfo()))
  }

  /** `write_mesh_filenames(mesh_dir, obj_id)`: the manifest of one object. */
  function WriteMeshFilenames(fs: FileSystem, dir: Path, id: nat): (r: Step)
    ensures r.Done? <==> IsDirAt(fs, dir) && !IsDirAt(fs, ManifestPath(dir, id))
    ensures r.Done? ==> ManifestPath(dir, id) in r.fs
    ensures r.Done? ==> r.fs[ManifestPath(dir, id)] == File(Doc(JObj(map["fragments" := JArr([JStr(FragmentName(id))])])))
    ensures r.Done? ==> r.fs.Keys == fs.Keys + {ManifestPath(dir, id)}
    ensures r.Done? ==> forall q :: q in fs && q != ManifestPath(dir, id) ==> r.fs[q] == fs[q]
    ensures r.Raised? ==> r.fs == fs
    ensures Valid(fs) ==> Valid(r.fs)
  {
    assert Parent(ManifestPath(dir, id)) == dir;
    WriteFile(fs, ManifestPath(dir, id), Doc(Manifest(id)))
  }

  // ------------------------------------------------------------ save_mesh

  /** One item of the `meshes` dictionary: an object id and its mesh's `to_precomputed()` bytes. */
  datatype MeshEntry = MeshEntry(id: nat, fragment: seq<bv8>)

  /** `meshes.keys()`, in iteration order. */
  function Ids(meshes: seq<MeshEntry>): seq<nat> {
    seq(|meshes|, i requires 0 <= i < |meshes| => meshes[i].id)
  }

  /** Dictionary keys are distinct. */
  predicate DistinctIds(ids: seq<nat>) {
    forall i, j :: 0 <= i < j < |ids| ==> ids[i] != ids[j]
  }

  /** The manifest and fragment files written for the objects `meshes`. */
  function ObjectPaths(dir: Path, meshes: seq<MeshEntry>): set<Path> {
    if meshes == [] then {}
    else
      var id := meshes[|meshes| - 1].id;
      ObjectPaths(dir, meshes[..|meshes| - 1]) + {ManifestPath(dir, id), FragmentPath(dir, id)}
  }

  /** Everything `save_mesh` writes into `dir`: its `info` and the objects' files. */
  function MeshDirPaths(dir: Path, meshes: seq<MeshEntry>): set<Path> {
    {InfoPath(dir)} + ObjectPaths(dir, meshes)
  }

  /** The disk after the manifests and fragments of `meshes` have been written in order. */
  ghost function Written(fs: FileSystem, dir: Path, meshes: seq<MeshEntry>): FileSystem {
    if meshes == [] then fs
    else
      var e := meshes[|meshes| - 1];
      Written(fs, dir, meshes[..|meshes| - 1])
        [ManifestPath(dir, e.id) := File(Doc(Manifest(e.id)))]
        [FragmentPath(dir, e.id) := File(Bytes(e.fragment))]
  }

  /** Each object's files sit directly inside the mesh directory and are not its `info`. */
  lemma {:induction false} ObjectPathsInside(dir: Path, meshes: seq<MeshEntry>, x: Path)
    requires x in ObjectPaths(dir, meshes)
    ensures x != [] && Parent(x) == dir && x != InfoPath(dir)
  {
    var id := meshes[|meshes| - 1].id;
    MeshNamesDistinct(id, id);
    assert InfoPath(dir)[|dir|] == "info";
    assert ManifestPath(dir, id)[|dir|] == ManifestName(id);
    assert FragmentPath(dir, id)[|dir|] == FragmentName(id);
    if x in ObjectPaths(dir, meshes[..|meshes| - 1]) {
      ObjectPathsInside(dir, meshes[..|meshes| - 1], x);
    }
  }

  /** Everything `save_mesh` writes sits directly inside the mesh directory. */
  lemma MeshDirPathsInside(dir: Path, meshes: seq<MeshEntry>, x: Path)
    requires x in MeshDirPaths(dir, meshes)
    ensures x != [] && Parent(x) == dir
  {
    if x in ObjectPaths(dir, meshes) {
      ObjectPathsInside(dir, meshes, x);
    }
  }

  /** The files of an object not among `meshes` are not among theirs. */
  lemma {:induction false} NotInObjectPaths(dir: Path, meshes: seq<MeshEntry>, id: nat)
    requires id !in Ids(meshes)
    ensures ManifestPath(dir, id) !in ObjectPaths(dir, meshes)
    ensures FragmentPath(dir, id) !in ObjectPaths(dir, meshes)
  {
    if meshes != [] {
      var init, last := meshes[..|meshes| - 1], meshes[|meshes| - 1].id;
      assert Ids(meshes)[|meshes| - 1] == last;
      assert Ids(init) == Ids(meshes)[..|meshes| - 1];
      MeshNamesDistinct(id, last);
      MeshNamesDistinct(last, id);
      assert ManifestPath(dir, id)[|dir|] == ManifestName(id);
      assert FragmentPath(dir, id)[|dir|] == FragmentName(id);
      assert ManifestPath(dir, last)[|dir|] == ManifestName(last);
      assert FragmentPath(dir, last)[|dir|] == FragmentName(last);
      NotInObjectPaths(dir, init, id);
    }
  }

  lemma DistinctPrefix(meshes: seq<MeshEntry>, i: nat)
    requires DistinctIds(Ids(meshes)) && i < |meshes|
    ensures DistinctIds(Ids(meshes[..i])) && meshes[i].id !in Ids(meshes[..i])
  {
    assert Ids(meshes[..i]) == Ids(meshes)[..i];
    assert meshes[i].id == Ids(meshes)[i];
  }

  /** For n objects with distinct ids the mesh directory receives 1 + 2n files. */
  lemma {:induction false} MeshDirPathsCount(dir: Path, meshes: seq<MeshEntry>)
    requires DistinctIds(Ids(meshes))
    ensures |MeshDirPaths(dir, meshes)| == 1 + 2 * |meshes|
  {
    if meshes != [] {
      var init, last := meshes[..|meshes| - 1], meshes[|meshes| - 1].id;
      DistinctPrefix(meshes, |meshes| - 1);
      MeshDirPathsCount(dir, init);
      NotInObjectPaths(dir, init, last);
      MeshNamesDistinct(last, last);
      assert ManifestPath(dir, last)[|dir|] != FragmentPath(dir, last)[|dir|];
      ObjectPathsInside(dir, meshes, ManifestPath(dir, last));
      ObjectPathsInside(dir, meshes, FragmentPath(dir, last));
      assert MeshDirPaths(dir, meshes) == MeshDirPaths(dir, init) + {ManifestPath(dir, last), FragmentPath(dir, last)};
    }
  }

  /** Writing the objects adds exactly their files and leaves every other entry alone. */
  lemma {:induction false} WrittenFrame(fs: FileSystem, dir: Path, meshes: seq<MeshEntry>)
    ensures Written(fs, dir, meshes).Keys == fs.Keys + ObjectPaths(dir, meshes)
    ensures forall x :: x in fs && x !in ObjectPaths(dir, meshes) ==> Written(fs, dir, meshes)[x] == fs[x]
    ensures forall x :: x in ObjectPaths(dir, meshes) ==> Written(fs, dir, meshes)[x].File?
  {
    if meshes != [] {
      WrittenFrame(fs, dir, meshes[..|meshes| - 1]);
    }
  }

  /** With distinct ids, each object's manifest and fragment hold what was written for it. */
  lemma {:induction false} WrittenObject(fs: FileSystem, dir: Path, meshes: seq<MeshEntry>, j: nat)
    requires DistinctIds(Ids(meshes)) && j < |meshes|
    ensures ManifestPath(dir, meshes[j].id) in Written(fs, dir, meshes)
    ensures FragmentPath(dir, meshes[j].id) in Written(fs, dir, meshes)
    ensures Written(fs, dir, meshes)[ManifestPath(dir, meshes[j].id)] == File(Doc(Manifest(meshes[j].id)))
    ensures Written(fs, dir, meshes)[FragmentPath(dir, meshes[j].id)] == File(Bytes(meshes[j].fragment))
  {
    WrittenFrame(fs, dir, meshes);
    var n := |meshes| - 1;
    var last := meshes[n].id;
    MeshNamesDistinct(last, last);
    assert ManifestPath(dir, last)[|dir|] != FragmentPath(dir, last)[|dir|];
    if j < n {
      DistinctPrefix(meshes, n);
      assert meshes[..n][j] == meshes[j];
      assert meshes[j].id in Ids(meshes[..n]) by {
        assert Ids(meshes[..n])[j] == meshes[j].id;
      }
      WrittenObject(fs, dir, meshes[..n], j);
      var id := meshes[j].id;
      MeshNamesDistinct(id, last);
      MeshNamesDistinct(last, id);
      assert ManifestPath(dir, id)[|dir|] == ManifestName(id);
      assert FragmentPath(dir, id)[|dir|] == FragmentName(id);
      assert ManifestPath(dir, last)[|dir|] == ManifestName(last);
      assert FragmentPath(dir, last)[|dir|] == FragmentName(last);
    }
  }

  /** The conditions under which `save_mesh(meshes, mesh_dir)` runs to its end without raising. */
  predicate SaveMeshSucceeds(fs: FileSystem, meshes: seq<MeshEntry>, dir: Path) {
    && (IsDirAt(fs, dir) || (dir !in fs && dir != [] && IsDirAt(fs, Parent(dir))))
    && !IsDirAt(fs, InfoPath(dir))
    && (forall i :: 0 <= i < |meshes| ==> !IsDirAt(fs, ManifestPath(dir, meshes[i].id)))
    && (forall i :: 0 <= i < |meshes| ==> !IsDirAt(fs, FragmentPath(dir, meshes[i].id)))
  }

  /** No manifest or fragment path of `meshes` is taken by a directory. */
  predicate ObjectsFree(fs: FileSystem, dir: Path, meshes: seq<MeshEntry>) {
    meshes == [] ||
      var id := meshes[|meshes| - 1].id;
      && ObjectsFree(fs, dir, meshes[..|meshes| - 1])
      && !IsDirAt(fs, ManifestPath(dir, id))
      && !IsDirAt(fs, FragmentPath(dir, id))
  }

  lemma {:induction false} ObjectsFreeAll(fs: FileSystem, dir: Path, meshes: seq<MeshEntry>)
    ensures ObjectsFree(fs, dir, meshes) <==>
      && (forall j :: 0 <= j < |meshes| ==> !IsDirAt(fs, ManifestPath(dir, meshes[j].id)))
      && (forall j :: 0 <= j < |meshes| ==> !IsDirAt(fs, FragmentPath(dir, meshes[j].id)))
  {
    if meshes != [] {
      var init := meshes[..|meshes| - 1];
      ObjectsFreeAll(fs, dir, init);
      assert forall j :: 0 <= j < |init| ==> init[j] == meshes[j];
    }
  }

  /** One turn of the object loop: the two writes succeed exactly when neither path is a directory. */
  lemma WriteObjectStep(fs: FileSystem, meshes: seq<MeshEntry>, dir: Path, i: nat)
    requires DistinctIds(Ids(meshes)) && IsDirAt(fs, dir) && i < |meshes|
    ensures var id := meshes[i].id;
      var s1 := WriteMeshFilenames(Written(fs, dir, meshes[..i]), dir, id);
      && (s1.Done? <==> !IsDirAt(fs, ManifestPath(dir, id)))
      && (s1.Done? ==>
        var s2 := WriteFile(s1.fs, FragmentPath(dir, id), Bytes(meshes[i].fragment));
        && (s2.Done? <==> !IsDirAt(fs, FragmentPath(dir, id)))
        && (s2.Done? ==> s2.fs == Written(fs, dir, meshes[..i + 1])))
    ensures var id := meshes[i].id;
      ObjectsFree(fs, dir, meshes[..i + 1]) <==>
        ObjectsFree(fs, dir, meshes[..i]) && !IsDirAt(fs, ManifestPath(dir, id)) && !IsDirAt(fs, FragmentPath(dir, id))
  {
    assert meshes[..i + 1][..i] == meshes[..i];
    var id := meshes[i].id;
    var cur := Written(fs, dir, meshes[..i]);
    DistinctPrefix(meshes, i);
    NotInObjectPaths(dir, meshes[..i], id);
    WrittenFrame(fs, dir, meshes[..i]);
    var m, f := ManifestPath(dir, id), FragmentPath(dir, id);
    if dir in ObjectPaths(dir, meshes[..i]) {
      ObjectPathsInside(dir, meshes[..i], dir);
    }
    MeshNamesDistinct(id, id);
    assert m[|dir|] != f[|dir|];
    assert Parent(f) == dir;
    assert IsDirAt(cur, dir);
    assert IsDirAt(cur, m) <==> IsDirAt(fs, m);
    var s1 := WriteMeshFilenames(cur, dir, id);
    if s1.Done? {
      assert IsDirAt(s1.fs, dir);
      assert IsDirAt(s1.fs, f) <==> IsDirAt(fs, f);
      assert meshes[..i + 1][..i] == meshes[..i];
    }
  }

  lemma WrittenOnlyBelow(fs: FileSystem, dir: Path, meshes: seq<MeshEntry>)
    ensures OnlyBelow(fs, Written(fs, dir, meshes), dir)
  {
    WrittenFrame(fs, dir, meshes);
    forall q | q in ObjectPaths(dir, meshes) ensures AtOrBelow(dir, q) {
      ObjectPathsInside(dir, meshes, q);
    }
  }

  /** A run of the loop stopped between an object's manifest and its fragment wrote only below `dir`. */
  lemma ManifestOnlyBelow(fs: FileSystem, meshes: seq<MeshEntry>, dir: Path, i: nat)
    requires i < |meshes|
    ensures OnlyBelow(fs, WriteMeshFilenames(Written(fs, dir, meshes[..i]), dir, meshes[i].id).fs, dir)
  {
    WrittenOnlyBelow(fs, dir, meshes[..i]);
    assert ManifestPath(dir, meshes[i].id)[..|dir|] == dir;
  }

  /**
   * The loop of `save_mesh`: for each object in order, its manifest and then
   * its fragment file, into the existing directory `dir`.
   */
  method WriteMeshObjects(fs: FileSystem, meshes: seq<MeshEntry>, dir: Path) returns (r: Step)
    requires DistinctIds(Ids(meshes)) && IsDirAt(fs, dir)
    ensures r.Done? <==> ObjectsFree(fs, dir, meshes)
    ensures r.Done? ==> r.fs == Written(fs, dir, meshes)
    ensures OnlyBelow(fs, r.fs, dir)
    ensures Valid(fs) ==> Valid(r.fs)
  {
    r := Done(fs);
    var i := 0;
    while i < |meshes|
      invariant 0 <= i <= |meshes|
      invariant r.Done? && r.fs == Written(fs, dir, meshes[..i])
      invariant ObjectsFree(fs, dir, meshes[..i])
      invariant Valid(fs) ==> Valid(r.fs)
    {
      var id := meshes[i].id;
      WriteObjectStep(fs, meshes, dir, i);
      r := WriteMeshFilenames(r.fs, dir, id);
      if r.Raised? {
        WrittenOnlyBelow(fs, dir, meshes[..i]);
        ObjectsFreeAll(fs, dir, meshes);
        return;
      }
      r := WriteFile(r.fs, FragmentPath(dir, id), Bytes(meshes[i].fragment));
      if r.Raised? {
        ManifestOnlyBelow(fs, meshes, dir, i);
        ObjectsFreeAll(fs, dir, meshes);
        return;
      }
      i := i + 1;
    }
    assert meshes[..i] == meshes;
    WrittenOnlyBelow(fs, dir, meshes);
  }

  /**
   * `save_mesh(meshes, mesh_dir)`: create the directory if absent, write its
   * `info`, then for each object its manifest and its fragment file. The
   * source returns nothing; this model also returns the ids written, which is
   * what its caller goes on to use.
   */
  method SaveMesh(fs: FileSystem, meshes: seq<MeshEntry>, dir: Path) returns (r: Step, ids: seq<nat>)
    requires DistinctIds(Ids(meshes))
    ensures r.Done? <==> SaveMeshSucceeds(fs, meshes, dir)
    ensures r.Done? ==> |ids| == |meshes| && forall i :: 0 <= i < |meshes| ==> ids[i] == meshes[i].id
    ensures r.Done? ==> r.fs == SavedMesh(fs, meshes, dir)
    ensures OnlyBelow(fs, r.fs, dir)
    ensures Valid(fs) ==> Valid(r.fs)
  {
    ids := [];
    assert InfoPath(dir)[..|dir|] == dir;
    r := Mkdir(fs, dir);
    if r.Raised? {
      return;
    }
    r := WriteMeshInfo(r.fs, dir);
    if r.Raised? {
      return;
    }
    ghost var base := r.fs;
    assert base == MeshDirBase(fs, dir);
    assert OnlyBelow(fs, base, dir);
    SaveMeshBase(fs, base, meshes, dir);
    ObjectsFreeAll(base, dir, meshes);
    r := WriteMeshObjects(r.fs, meshes, dir);
    OnlyBelowTrans(fs, base, r.fs, dir);
    if r.Raised? {
      return;
    }
    ids := Ids(meshes);
  }

  /** The disk once `save_mesh` has created `dir` (if absent) and written its `info`. */
  ghost function MeshDirBase(fs: FileSystem, dir: Path): FileSystem {
    var made := if dir in fs then fs else fs[dir := Dir];
    made[InfoPath(dir) := File(Doc(MeshInfo()))]
  }

  /** The disk after `save_mesh(meshes, dir)` has run to its end. */
  ghost function SavedMesh(fs: FileSystem, meshes: seq<MeshEntry>, dir: Path): FileSystem {
    Written(MeshDirBase(fs, dir), dir, meshes)
  }

  /** The directory and `info` steps of `save_mesh` change nothing at the objects' paths. */
  lemma SaveMeshBase(fs: FileSystem, base: FileSystem, meshes: seq<MeshEntry>, dir: Path)
    requires forall x :: x != dir && x != InfoPath(dir) ==> (x in base <==> x in fs)
    requires forall x :: x in fs && x != dir && x != InfoPath(dir) ==> base[x] == fs[x]
    ensures (forall j :: 0 <= j < |meshes| ==> !IsDirAt(base, ManifestPath(dir, meshes[j].id))) <==>
      (forall j :: 0 <= j < |meshes| ==> !IsDirAt(fs, ManifestPath(dir, meshes[j].id)))
    ensures (forall j :: 0 <= j < |meshes| ==> !IsDirAt(base, FragmentPath(dir, meshes[j].id))) <==>
      (forall j :: 0 <= j < |meshes| ==> !IsDirAt(fs, FragmentPath(dir, meshes[j].id)))
  {
    forall j | 0 <= j < |meshes|
      ensures IsDirAt(base, ManifestPath(dir, meshes[j].id)) <==> IsDirAt(fs, ManifestPath(dir, meshes[j].id))
      ensures IsDirAt(base, FragmentPath(dir, meshes[j].id)) <==> IsDirAt(fs, FragmentPath(dir, meshes[j].id))
    {
      var id := meshes[j].id;
      MeshNamesDistinct(id, id);
      assert ManifestPath(dir, id)[|dir|] != InfoPath(dir)[|dir|];
      assert FragmentPath(dir, id)[|dir|] != InfoPath(dir)[|dir|];
    }
  }

  /**
   * After a completed `save_mesh`, `dir` is a directory holding the mesh
   * `info` and, for every object, its manifest and its fragment bytes.
   */
  lemma SavedMeshFiles(fs: FileSystem, meshes: seq<MeshEntry>, dir: Path)
    requires DistinctIds(Ids(meshes)) && SaveMeshSucceeds(fs, meshes, dir)
    ensures var w := SavedMesh(fs, meshes, dir);
      && IsDirAt(w, dir)
      && InfoPath(dir) in w && w[InfoPath(dir)] == File(Doc(MeshInfo()))
      && (forall i :: 0 <= i < |meshes| ==>
        && ManifestPath(dir, meshes[i].id) in w
        && w[ManifestPath(dir, meshes[i].id)] == File(Doc(Manifest(meshes[i].id))))
      && (forall i :: 0 <= i < |meshes| ==>
        && FragmentPath(dir, meshes[i].id) in w
        && w[FragmentPath(dir, meshes[i].id)] == File(Bytes(meshes[i].fragment)))
  {
    var base := MeshDirBase(fs, dir);
    assert IsDirAt(base, dir) by {
      assert InfoPath(dir) != dir;
    }
    WrittenFrame(base, dir, meshes);
    var w := Written(base, dir, meshes);
    forall j | 0 <= j < |meshes|
      ensures ManifestPath(dir, meshes[j].id) in w
      ensures w[ManifestPath(dir, meshes[j].id)] == File(Doc(Manifest(meshes[j].id)))
      ensures FragmentPath(dir, meshes[j].id) in w
      ensures w[FragmentPath(dir, meshes[j].id)] == File(Bytes(meshes[j].fragment))
    {
      WrittenObject(base, dir, meshes, j);
    }
    if InfoPath(dir) in ObjectPaths(dir, meshes) {
      ObjectPathsInside(dir, meshes, InfoPath(dir));
    }
    if dir in ObjectPaths(dir, meshes) {
      ObjectPathsInside(dir, meshes, dir);
    }
  }

  /**
   * `save_mesh` adds `dir`, its `info` and the objects' files, and leaves every
   * other entry as it was.
   */
  lemma SavedMeshFrame(fs: FileSystem, meshes: seq<MeshEntry>, dir: Path)
    ensures var w := SavedMesh(fs, meshes, dir);
      && w.Keys == fs.Keys + {dir} + MeshDirPaths(dir, meshes)
      && (forall q :: q in fs && q != dir && q !in MeshDirPaths(dir, meshes) ==> w[q] == fs[q])
  {
    WrittenFrame(MeshDirBase(fs, dir), dir, meshes);
  }

  /** Into an empty or absent `dir`, `save_mesh` puts exactly `info` and two files per object: 1 + 2n entries. */
  lemma SavedMeshChildren(fs: FileSystem, meshes: seq<MeshEntry>, dir: Path)
    requires DistinctIds(Ids(meshes))
    requires Children(fs, dir) == {}
    ensures Children(SavedMesh(fs, meshes, dir), dir) == MeshDirPaths(dir, meshes)
    ensures |Children(SavedMesh(fs, meshes, dir), dir)| == 1 + 2 * |meshes|
  {
    var base := MeshDirBase(fs, dir);
    var w := Written(base, dir, meshes);
    WrittenFrame(base, dir, meshes);
    forall x | x in ObjectPaths(dir, meshes) ensures x != [] && Parent(x) == dir {
      ObjectPathsInside(dir, meshes, x);
    }
    assert Parent(InfoPath(dir)) == dir;
    forall p | p in w && p != [] && Parent(p) == dir ensures p in MeshDirPaths(dir, meshes) {
      assert p !in Children(fs, dir);
      assert p != dir;
    }
    MeshDirPathsCount(dir, meshes);
  }
}
