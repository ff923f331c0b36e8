# aind-ng-mesh: staging and upload of a Neuroglancer precomputed segmentation

`aind_ng_mesh` turns a label volume and its meshes into Neuroglancer's
"precomputed" layout and mirrors it into an S3 bucket. This model covers the
code the repository owns. `write_to_s3` stages a tree under
`root_dir/upload_dir`:

- the volume's `info`, patched by `edit_info` to point at the mesh and
  segment-properties sub-layers;
- `mesh/`, written by `save_mesh`: one `info`, and per object id a manifest
  `{id}:0` and a fragment `{id}:0:0000000000000000`;
- `segment_properties/info`, the label list built by
  `write_segment_properties`.

`to_s3` then walks the tree with `os.walk` and puts every file under
`join(prefix, relpath)`. Every directory below the root gets an empty marker
object at the same key plus `/`. Finally `rmtree` removes the staging
directory.

The local disk is a value threaded through every operation
(`Filesystem.FileSystem`, a map from a path, a sequence of names, to a
directory or a file). A file holds opaque bytes or a JSON document
(`Json.Json`). Each disk operation returns `Step`: the disk after it, and the
Python exception it raised, if any. The modules follow the source:

- `IoUtils` is `io_utils.py` without its call into `meshing`.
- `Meshing` is `meshing.py`.
- `Pipeline` is `write_to_s3` and `to_precomputed`, which call both, as the
  two files call each other.
- `Decimal` is `str(int)`, and `PosixPath` is `os.path.join` and
  `os.path.relpath` over POSIX separators.

`to_s3`'s walk, and `save_mesh`'s loop over the objects, are methods with
loop invariants. Each is proved equal to a function of its inputs
(`IoUtils.UploadPlan`, `Meshing.SavedMesh`), and the lemmas beside them
state what those functions contain.

`write_to_s3` removes the staging directory only when the upload returns
normally. In `io_utils.py:100-107`, `shutil.rmtree(upload_dir)` follows the
call to `to_s3`. An exception from an upload propagates out of that call, so
`rmtree` is never reached and the staging tree stays in place. This holds
even though the docstring (`io_utils.py:75-76`) says the directory is deleted
after the files are uploaded. `Pipeline.WriteToS3` proves this: the
`UploadRejected` outcome keeps the fully staged tree, and only the `Uploaded`
outcome has nothing left under `upload_dir`.

## Model

| member | source | states |
|---|---|---|
| Filesystem.MakeDir | src/aind_ng_mesh/io_utils.py:33 | `os.mkdir` succeeds exactly when the path is new and its parent is a directory; it adds exactly that directory, and a failure changes nothing |
| Filesystem.LookupErrorKind | src/aind_ng_mesh/io_utils.py:33 | on a tree, a path that cannot be resolved raises `NotADirectoryError` exactly when some proper prefix is a file, and `FileNotFoundError` otherwise |
| Filesystem.LookupErrorExample | src/aind_ng_mesh/io_utils.py:223 | with a file `a`, `mkdir("a/b/c")`, `open("a/info")` and `rmtree("a/b")` raise `NotADirectoryError`; `mkdir("b/c")` raises `FileNotFoundError` |
| Filesystem.WriteFile | src/aind_ng_mesh/io_utils.py:244-245 | `write_json` succeeds exactly when the path is not a directory and its parent is one; it then creates or truncates only that file, holding the document; a failure changes nothing |
| Filesystem.ReadJson | src/aind_ng_mesh/io_utils.py:223-225 | `read_json` returns a document exactly when the path is a file holding one, and the document is what that file holds |
| Filesystem.RemoveTree | src/aind_ng_mesh/io_utils.py:107 | `rmtree` succeeds exactly on a directory; afterwards the entries are those not at or below it, with their old contents |
| IoUtils.Mkdir | src/aind_ng_mesh/io_utils.py:32-33 | an existing path (directory or file) leaves the disk unchanged; otherwise a directory is created exactly when the parent is one; nothing else changes |
| IoUtils.MkdirIdempotent | src/aind_ng_mesh/io_utils.py:32-33 | calling `mkdir` twice has the effect of calling it once |
| IoUtils.ContainsOccurs | src/aind_ng_mesh/io_utils.py:50 | the `in` test on strings holds exactly when the pattern occurs at some position |
| IoUtils.ReadBlockReader | src/aind_ng_mesh/io_utils.py:50-53 | TIFF exactly when "tif" occurs; N5 exactly when "tif" does not occur and ".n5" does; None exactly when neither occurs |
| IoUtils.ReadBlockTiffFirst | src/aind_ng_mesh/io_utils.py:50-53 | a path holding both "tif" and ".n5" is read as TIFF; one with only ".n5" as N5, and one with neither yields None |
| IoUtils.PatchInfo | src/aind_ng_mesh/io_utils.py:184-186 | the patched object has `type` = "segmentation", `mesh` = "mesh" and `segment_properties` = "segment_properties"; its keys are the old ones plus these three, and every other key keeps its value |
| IoUtils.PatchInfoIdempotent | src/aind_ng_mesh/io_utils.py:183-187 | patching twice equals patching once |
| IoUtils.EditInfo | src/aind_ng_mesh/io_utils.py:182-187 | succeeds exactly when `dir/info` is a file holding a JSON object, and then replaces only that file by the patched object; every failure (missing file, directory, bytes, non-object) leaves the disk unchanged |
| IoUtils.EditInfoIdempotent | src/aind_ng_mesh/io_utils.py:182-187 | `edit_info` twice equals `edit_info` once, failures included |
| IoUtils.Labels | src/aind_ng_mesh/io_utils.py:195-199 | `list(map(str, seg_ids))` has the length of `seg_ids`; element i is the decimal string of `seg_ids[i]` |
| IoUtils.SegmentPropertiesInfo | src/aind_ng_mesh/io_utils.py:192-202 | `@type` is "neuroglancer_segment_properties"; `inline.ids` is the label list; there is exactly one property, with `id` and `type` "label", and its `values` equal `inline.ids` |
| IoUtils.ParseLabelsOfLabels | src/aind_ng_mesh/io_utils.py:195 | reading the decimal labels back gives the original ids |
| IoUtils.SegmentPropertiesRoundTrip | src/aind_ng_mesh/io_utils.py:195-199 | the ids are recoverable, in order, from the written `inline.ids` |
| IoUtils.WriteSegmentProperties | src/aind_ng_mesh/io_utils.py:204-206 | succeeds exactly when `segment_properties` is or can become a directory and its `info` is not a directory; then `root/segment_properties/info` holds the segment-properties document, exactly those two paths are added, and nothing else changes; failure on a tree changes nothing |
| IoUtils.FileKeyNoSlash | src/aind_ng_mesh/io_utils.py:125-127 | a file's key is nonempty and never ends in "/" |
| IoUtils.FileKeyNotMarker | src/aind_ng_mesh/io_utils.py:125-138 | no file key equals any directory marker key |
| IoUtils.ObjectKeyInjective | src/aind_ng_mesh/io_utils.py:122-139 | two entries below the uploaded directory get the same key exactly when they are the same entry |
| IoUtils.UploadsAt | src/aind_ng_mesh/io_utils.py:122-139 | each entry of an uploaded set is put under its own key with its own body |
| IoUtils.UploadsAdd | src/aind_ng_mesh/io_utils.py:129-139 | uploading one more entry adds exactly its key and body to what was put |
| IoUtils.UploadPlanFile | src/aind_ng_mesh/io_utils.py:122-129 | every regular file below the directory is put under `join(prefix, relpath)` with its contents |
| IoUtils.UploadPlanMarker | src/aind_ng_mesh/io_utils.py:131-139 | every directory below the directory gets an empty object at `join(prefix, relpath) + "/"` |
| IoUtils.UploadPlanKeys | src/aind_ng_mesh/io_utils.py:122-139 | every key put belongs to some entry below the directory |
| IoUtils.NoRootMarker | src/aind_ng_mesh/io_utils.py:131-139 | the uploaded directory itself gets no marker |
| IoUtils.WalkReachesDir | src/aind_ng_mesh/io_utils.py:122 | a walk that visits the children of every visited directory has visited every directory below the start |
| IoUtils.WalkCoversEntries | src/aind_ng_mesh/io_utils.py:122-123 | once the walk is closed, the files and subdirectories it listed are exactly the entries below the start |
| IoUtils.WalkStep | src/aind_ng_mesh/io_utils.py:122 | visiting one pending directory keeps the walk's invariant and shrinks the set of unvisited directories |
| IoUtils.PutFiles | src/aind_ng_mesh/io_utils.py:123-129 | the inner file loop adds exactly the puts of the listed files |
| IoUtils.PutMarkers | src/aind_ng_mesh/io_utils.py:131-139 | the inner directory loop adds exactly the markers of the listed directories |
| IoUtils.ToS3 | src/aind_ng_mesh/io_utils.py:122-139 | the `os.walk` loop puts exactly the upload plan: one object per entry below the directory, nothing else; a missing directory or a file puts nothing |
| PosixPath.JoinNamesInjective | src/aind_ng_mesh/io_utils.py:126 | two relative paths have the same string exactly when they are the same names |
| PosixPath.JoinInjective | src/aind_ng_mesh/io_utils.py:125 | `join(prefix, a) == join(prefix, b)` exactly when `a == b` |
| PosixPath.RelPathInjective | src/aind_ng_mesh/io_utils.py:126 | distinct entries below a directory have distinct `relpath`s |
| Decimal.NatToString | src/aind_ng_mesh/meshing.py:55 | `str(id)` is a canonical decimal: digits, no leading zero; one digit exactly when the id is below 10 |
| Decimal.ParseNatOfNatToString | src/aind_ng_mesh/meshing.py:55 | the decimal string of an id reads back as that id |
| Decimal.NatToStringOfParseNat | src/aind_ng_mesh/meshing.py:55 | whatever parses as an id is the decimal string of that id |
| Decimal.NatToStringInjective | src/aind_ng_mesh/meshing.py:55 | distinct ids have distinct decimal strings |
| Meshing.ParseFragmentNameOf | src/aind_ng_mesh/meshing.py:55 | the id can be read back from its fragment name |
| Meshing.ParseManifestNameOf | src/aind_ng_mesh/meshing.py:68 | the id can be read back from its manifest name |
| Meshing.ParseManifestNameOfFragment | src/aind_ng_mesh/meshing.py:55-68 | no fragment name reads as a manifest name |
| Meshing.MeshNamesDistinct | src/aind_ng_mesh/meshing.py:55-68 | fragment names are equal exactly when the ids are, and so are manifest names; no manifest is named like a fragment; neither is named "info" |
| Meshing.MeshNamesExample | src/aind_ng_mesh/meshing.py:55-68 | object 12's fragment is "12:0:0000000000000000" and its manifest "12:0" |
| Meshing.ManifestNamesItsFragment | src/aind_ng_mesh/meshing.py:69 | an id's manifest lists exactly one fragment, and that fragment's name is this id's |
| Meshing.WriteMeshInfo | src/aind_ng_mesh/meshing.py:61-64 | `mesh_dir/info` becomes exactly `{"@type": "neuroglancer_legacy_mesh"}` when `mesh_dir` is a directory and `info` is not; nothing else changes; failure changes nothing |
| Meshing.WriteMeshFilenames | src/aind_ng_mesh/meshing.py:67-70 | `mesh_dir/{id}:0` becomes `{"fragments": [fragment name of id]}` under the same conditions; nothing else changes |
| Meshing.MeshDirPathsCount | src/aind_ng_mesh/meshing.py:54-58 | for n distinct ids, `save_mesh` writes 1 + 2n distinct paths |
| Meshing.WrittenFrame | src/aind_ng_mesh/meshing.py:54-58 | the per-object writes add exactly the manifests and fragments, as files, and leave every other entry alone |
| Meshing.WrittenObject | src/aind_ng_mesh/meshing.py:54-58 | after the loop, each object's manifest and fragment hold its manifest document and its encoded mesh, whatever the order |
| Meshing.ObjectsFreeAll | src/aind_ng_mesh/meshing.py:54-58 | the loop's success condition, built one object at a time, is the same as "no manifest and no fragment path is a directory" |
| Meshing.WriteObjectStep | src/aind_ng_mesh/meshing.py:55-58 | one iteration succeeds exactly when neither of the object's paths is a directory, and then extends the written state by that object |
| Meshing.WriteMeshObjects | src/aind_ng_mesh/meshing.py:54-58 | the loop over `meshes.keys()` succeeds exactly when no object path is a directory; it then yields the written state, changes only entries under `mesh_dir`, and keeps the disk a tree |
| Meshing.SaveMesh | src/aind_ng_mesh/meshing.py:51-58 | succeeds exactly when `mesh_dir` is or can become a directory and none of `info`, the manifests or the fragments is a directory; then yields the saved state and returns the ids in key order; changes only entries under `mesh_dir` and keeps the disk a tree |
| Meshing.SavedMeshFiles | src/aind_ng_mesh/meshing.py:52-58 | after a successful save, `mesh_dir` is a directory, `info` is the legacy-mesh document, and every object's manifest and fragment are present with the right contents |
| Meshing.SavedMeshFrame | src/aind_ng_mesh/meshing.py:51-58 | the saved state has exactly the old entries plus `mesh_dir`, `info`, the manifests and the fragments; every other entry keeps its contents |
| Meshing.SavedMeshChildren | src/aind_ng_mesh/meshing.py:52-58 | into an absent or empty `mesh_dir`, the entries of `mesh_dir` afterwards are exactly `info` plus a manifest and a fragment per object: 1 + 2n of them |
| Pipeline.StagingLayout | src/aind_ng_mesh/io_utils.py:88-89 | `upload_dir` is inside `root_dir`; `mesh` and `segment_properties` are directly inside `upload_dir`, distinct from its `info`, and neither lies inside the other; e.g. `data/upload_dir/mesh` |
| Pipeline.ToPrecomputed | src/aind_ng_mesh/io_utils.py:163-164 | succeeds exactly when the directory exists and its `info` is not a directory; the `info` then holds the patched volume info and nothing else changes |
| Pipeline.UploadKeyExample | src/aind_ng_mesh/io_utils.py:125-127 | object 12's manifest is put at "labels/run1/mesh/12:0"; a prefix ending in "/" gets no second separator |
| Pipeline.PlanFileAt | src/aind_ng_mesh/io_utils.py:124-129 | a staged file at a relative path is put at `join(prefix, that path)` with its contents |
| Pipeline.PlanMarkerAt | src/aind_ng_mesh/io_utils.py:132-139 | a staged directory at a relative path gets an empty marker at that key plus "/" |
| Pipeline.MeshLayerUpload | src/aind_ng_mesh/io_utils.py:122-139 | a staged mesh directory uploads as its marker, its `info`, and every object's manifest and fragment under `prefix/mesh/` |
| Pipeline.StagedUpload | src/aind_ng_mesh/io_utils.py:100-106 | uploading the staged tree puts the patched volume info, the whole mesh layer, the `segment_properties/` marker and its info, under the documented keys |
| Pipeline.AbsentHasNothingBelow | src/aind_ng_mesh/io_utils.py:88-90 | on a tree, nothing lies at or below an absent `upload_dir` |
| Pipeline.FreshMeshDir | src/aind_ng_mesh/io_utils.py:89-95 | a fresh `upload_dir` holding only `info` lets `save_mesh` succeed |
| Pipeline.FreshPropertyDir | src/aind_ng_mesh/io_utils.py:95-96 | after saving the meshes into a fresh `upload_dir`, `segment_properties` and its `info` are still free |
| Pipeline.MeshNotInProperties | src/aind_ng_mesh/io_utils.py:89-96 | nothing under `upload_dir/mesh` lies under `upload_dir/segment_properties` |
| Pipeline.MeshesStagedKept | src/aind_ng_mesh/io_utils.py:96 | writing the segment properties keeps the volume info and the mesh layer as staged |
| Pipeline.SavedStaged | src/aind_ng_mesh/io_utils.py:94-95 | saving the meshes into `upload_dir/mesh` yields the staged mesh layer beside the volume info |
| Pipeline.PrepareUploadDir | src/aind_ng_mesh/io_utils.py:88-94 | after `mkdir(upload_dir)` and `to_precomputed`, `upload_dir` is a directory holding the patched info; a fresh `upload_dir` under an existing root always gets there, holding nothing else; only entries under `upload_dir` change |
| Pipeline.StageVolumeAndMeshes | src/aind_ng_mesh/io_utils.py:88-95 | on success the volume and mesh layer are staged and the ids of `meshes` are returned in order; a fresh `upload_dir` always succeeds and leaves `segment_properties` free; only entries under `upload_dir` change |
| Pipeline.StageAll | src/aind_ng_mesh/io_utils.py:88-96 | on success the whole tree is staged, segment properties included; a fresh `upload_dir` always succeeds; only entries under `upload_dir` change |
| Pipeline.WriteToS3 | src/aind_ng_mesh/io_utils.py:88-107 | outside `upload_dir` the disk is unchanged. `Uploaded` means there was no upload error, every staged object was put under its key, and nothing is left under `upload_dir`. `UploadRejected` leaves the staged tree in place. From a fresh `upload_dir`, the result is `Uploaded` exactly when the upload does not fail |
| Pipeline.WriteToS3AsWritten | src/aind_ng_mesh/io_utils.py:95-96 | the code as written never reaches the upload; from a fresh `upload_dir` it raises `TypeError` leaving the volume and meshes staged, and changes nothing outside `upload_dir` |

## Left out

- `labels_to_meshes`, `extract_mesh` and `simplify_mesh` are not modelled. They are the zmesh library's floating-point geometry. A mesh is its already-encoded `to_precomputed()` bytes (`Meshing.MeshEntry`).
- Pipeline.ToPrecomputed: the tensorstore open and chunk write are foreign I/O and are not modelled. So is the fact that the write future is never awaited before `edit_info`. The volume's `info` object is a parameter, and the model writes it to `dir/info` before the patch. The options `"create": True` and `"delete_existing": True` (`io_utils.py:150-151`) are not modelled either. The model does not create `path` (it must already be a directory), and it does not clear what already lies under `path`. Its "nothing else changes" is therefore the model's assumption, not the library's. This matters for an `upload_dir` left behind by an earlier `UploadRejected` run.
- The boto3 session, client, bucket and credentials are not modelled: they are network I/O. `access_id` and `access_key` are accepted and passed on but never used. The model yields the map of keys to bodies that would be put.
- Pipeline.WriteToS3: an upload failure is the parameter `uploadFails`. The objects put before a failure are not modelled, so `UploadRejected` carries no puts.
- `read_block`'s image reading (tifffile, zarr N5) is not modelled; `IoUtils.ReadBlockReader` returns which reader would be used.
- JSON text is not modelled: `json.dump` and `json.load` are a documents-as-values file store (`Contents.Doc`), so key order and float formatting are absent. JSON numbers are `real`.
- `print` calls are console output only.
- `src/aind_ng_mesh/utils.py` is not part of this model. It repeats `mkdir` and an image loader, and it uses `os` without importing it.
- IoUtils.ToS3: requires the disk to be a tree (`Filesystem.Valid`), as every real disk is. `os.walk`'s visiting order is a set worklist; this order cannot change the result, because distinct entries have distinct keys (`IoUtils.ObjectKeyInjective`).
- Meshing.SaveMesh: object ids are `nat` and assumed distinct (`DistinctIds`), standing for the keys of a Python dict of non-negative integer ids. Negative ids or ids of other types are not modelled.
- Symbolic links, permissions, and `os.path.exists` on a broken link are not modelled.
- `os.path.join` and `os.path.relpath` use POSIX separators; an absolute second argument to `join` is not modelled, because a `relpath` is never absolute.

## Findings

| source | as written | input that shows it | evidently intended | confidence | as-written member | corrected member |
|---|---|---|---|---|---|---|
| src/aind_ng_mesh/meshing.py:51-58 and src/aind_ng_mesh/io_utils.py:95-96 | `save_mesh` has no `return`, so `obj_ids` is `None`; `write_segment_properties(upload_dir, None)` raises `TypeError` at `list(map(str, None))`, so nothing is uploaded and the staging directory is never removed | any call of `write_to_s3` with an existing `root_dir` and no `root_dir/upload_dir`, e.g. `meshes = {12: m}` | `save_mesh` returns the ids it wrote, `list(meshes.keys())`, and the segment properties list them | not executed | Pipeline.WriteToS3AsWritten | Meshing.SaveMesh (returns the ids, in order) and Pipeline.WriteToS3 (from a fresh `upload_dir`, uploads exactly when the upload does not fail) |
