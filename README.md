# Release artifact selection for promote-release-to-box

`promote-release-to-box.py` promotes the artifacts of one numbered build from
an Artifactory repository into a Box folder tree. Most of the script calls the
JFrog CLI, the Box SDK and HTTP endpoints. Inside it sits a small pure core
that decides which artifacts are released and under which destination label.
This project models that core in Dafny and proves its properties:

- `paths.dfy` (module `Paths`): Python's `str.split('/')` and `str.join`. It
  covers the file name of a repository path (`path.split('/')[-1]`), the
  checksum sidecar name (`name + ".sum"`) and the sidecar text.
- `template.dfy` (module `Template`): the substitution
  `content.replace('${release.version}', version)` applied to the manifest
  template before it is parsed. Python's `str.replace` is modelled for a
  non-empty token.
- `manifest.dfy` (module `Manifest`): `process_manifest_yaml`. The parsed
  manifest is a `Node` tree (`Group` of ordered key/value pairs, `Leaf` list of
  file names, `Scalar` for anything else). Dict order and overwrite on a
  repeated key are therefore part of the model. The spec is `Writes`, the
  ordered list of `result[item] = label` writes, and `Collect`, the dict those
  writes leave. The method `ProcessManifest` keeps the source's loop,
  recursion and `update`, and is proved equal to `Collect(Writes(..))`.
- `release.dfy` (module `Release`): `get_manifest_buildinfo_intersect`. The
  loop over the matched set picks its elements in an unspecified order, like
  Python's set iteration. Its contract `ReleaseMapOf` admits every outcome
  that some iteration order can produce.
- `download.dfy` (module `Download`): `download_artifacts_v3`. The working
  directory is a map from file name to contents. A fetch is recorded as the
  repository path it came from. The returned list and the effects are proved
  against `Run`, which applies `Step` to the records in order.

Three behaviours of the code that are easy to misread:

- The placeholder test `'$' not in item or '{' not in item` drops an item
  only when it contains BOTH `$` and `{`. An item with only one of them is
  kept (`Manifest.PlaceholderItemsDropped`).
- `download_artifacts_v3` appends one entry per build record. For a record
  that is not released, that entry is the record's full path, because
  `file_name` is reassigned only inside the `if` (`Download.ListedName`).
- The intersection gives both `f` and `f.sum` the label of `f` whenever no
  matched file is itself the sidecar name of another matched file
  (`Release.ReleaseLabelsExact`). If both `a` and `a.sum` are matched, the
  label stored under `a.sum` depends on set iteration order
  (`Release.SidecarCollisionAmbiguous`).

## Model

| member | source | states |
|---|---|---|
| `Paths.Split` | promote-release-to-box.py:81 | `path.split('/')` is never empty, no part contains the separator, and joining the parts with the separator gives back the input |
| `Paths.SplitUnique` | promote-release-to-box.py:81 | those three facts determine the split: any such list of parts equals `Split` |
| `Paths.FileNameIsLastSegment` | promote-release-to-box.py:98 | `path.split('/')[-1]` contains no `/`, is a suffix of the path, is preceded by `/` when shorter than the path, and equals the whole path when the path has no `/` |
| `Paths.SidecarNameInjective` | promote-release-to-box.py:99 | different file names get different `.sum` sidecar names |
| `Paths.SidecarLines` | promote-release-to-box.py:113-116 | the sidecar text splits on newlines into exactly `sha1=…`, `sha256=…`, `md5=…` (in that order) and an empty tail, when the checksums contain no newline |
| `Template.ReplaceWithoutOccurrence` | promote-release-to-box.py:128 | template text that never contains the token is returned unchanged |
| `Template.ReplaceFirstOccurrence` | promote-release-to-box.py:128 | left-to-right, non-overlapping replacement: the text before the first occurrence is kept, that occurrence becomes the version, and replacement continues after it |
| `Template.ReplaceBySelf` | promote-release-to-box.py:128 | replacing the token by itself changes nothing |
| `Template.SubstituteExample` | promote-release-to-box.py:128 | `${release.version}-x.zip` with version `9.5` becomes `9.5-x.zip` |
| `Manifest.ProcessManifest` | promote-release-to-box.py:133-155 | the loop-and-recursion flattening returns exactly the dict left by the traversal-order writes `Collect(Writes(data, parent))` |
| `Manifest.WriteItems` | promote-release-to-box.py:150-153 | the inner loop over one list adds exactly the kept items' writes, each with the current label, on top of the earlier writes |
| `Manifest.CollectAppend` | promote-release-to-box.py:149 | `result.update(sub)` gives the same dict as applying the nested mapping's writes after the earlier ones |
| `Manifest.CollectLastWriteWins` | promote-release-to-box.py:149-153 | a file name is a key exactly when it was written at least once, and it holds the label of its last write in traversal order |
| `Manifest.LeafWritesAre` | promote-release-to-box.py:151-153 | a list's writes are exactly its kept items, each with the list's label |
| `Manifest.WritesAppend` | promote-release-to-box.py:146-153 | traversing two consecutive runs of entries performs the first run's writes, then the second's |
| `Manifest.ScalarContributesNothing` | promote-release-to-box.py:148-153 | a key whose value is neither a mapping nor a list contributes no writes: removing it changes nothing |
| `Manifest.WritesSound` | promote-release-to-box.py:146-153 | every write is for a kept item listed under some chain of keys, with that chain joined by `/` under the parent label |
| `Manifest.WritesComplete` | promote-release-to-box.py:146-153 | every kept item listed under a chain of keys is written with that chain's `/`-joined label |
| `Manifest.FlattenedManifest` | promote-release-to-box.py:133-155 | a file name is a key of the flattened manifest iff some list holds it and it passes the placeholder test; its label is the `/`-joined key chain of one such list |
| `Manifest.TopLevelListLabel` | promote-release-to-box.py:147 | a kept item in a top-level list is written with the bare key as its label |
| `Manifest.PlaceholderItemsDropped` | promote-release-to-box.py:152 | an item containing both `$` and `{` is never a key; an item containing only one of them passes the test |
| `Manifest.UnsubstitutedEntryDropped` | promote-release-to-box.py:152 | any list item that still carries `${release.version}` anywhere fails the placeholder test and is never a key of the flattened manifest |
| `Manifest.NestedItemFlattened` | promote-release-to-box.py:146-153 | a kept item alone in a list under `top: sub:` flattens to the single entry labelled `top/sub` |
| `Manifest.SubstitutedEntryFlattened` | promote-release-to-box.py:128-153 | after substitution, `${release.version}-x.zip` under `ee: server:` flattens to the single entry `9.5-x.zip` labelled `ee/server` |
| `Release.ManifestBuildIntersect` | promote-release-to-box.py:158-165 | the result's keys are exactly the matched files and their sidecars; each key holds its own manifest label or the label of the matched file whose sidecar it is |
| `Release.EmptyBuildReleasesNothing` | promote-release-to-box.py:160 | an empty build releases nothing |
| `Release.ReleaseKeysFromBoth` | promote-release-to-box.py:160-164 | every released key is a manifest file found in the build, or the sidecar of one |
| `Release.ReleaseLabelsFromManifest` | promote-release-to-box.py:163-164 | every released label is a label of the manifest |
| `Release.ReleaseLabelsExact` | promote-release-to-box.py:162-164 | when no matched file is the sidecar name of another, each matched file and its sidecar both carry the file's manifest label |
| `Release.SidecarCollisionAmbiguous` | promote-release-to-box.py:162-164 | with both `a` and `a.sum` matched, either label can end up under `a.sum`, and the two outcomes differ |
| `Release.FileNameOf` | promote-release-to-box.py:160 | the file name of `dir/name` is `name` when `name` has no `/` |
| `Release.SingleArtifactRelease` | promote-release-to-box.py:158-165 | a build of one record `dir/name` whose name the manifest labels `dest` releases exactly `name` and `name.sum`, both under `dest` |
| `Release.ReleaseLabelsHaveFolders` | promote-release-to-box.py:242-245 | if the manifest uses only the fourteen labels of the fixed folder tree, every released file has a destination folder |
| `Download.DownloadArtifacts` | promote-release-to-box.py:84-121 | one returned entry per build record, in order: the file name for a released record, the full path otherwise; the working directory and the fetches are those of `Run` |
| `Download.DownloadOne` | promote-release-to-box.py:88-120 | the loop body for one record appends the file name if it is released and the full path otherwise, and changes the working directory and the fetches exactly as one `Step` |
| `Download.RunKeepsExisting` | promote-release-to-box.py:106-111 | files already in the working directory are never overwritten, and earlier fetches stay recorded |
| `Download.RunProvides` | promote-release-to-box.py:89-116 | afterwards every released record's file and its sidecar exist |
| `Download.RunCreatesOnlyReleased` | promote-release-to-box.py:102-116 | every new file is either a released record's artifact, fetched from that record's path, or its sidecar holding that record's three checksums |
| `Download.RunFetchesOnlyMissing` | promote-release-to-box.py:102-108 | every fetch is of a released record whose file name was not already present |
| `Download.RunFetchesOnce` | promote-release-to-box.py:106-108 | within one run no file name is fetched twice, even for two records with the same file name, because the existence test sees earlier fetches; each fetched file ends up in the working directory holding what was fetched |
| `Download.RunUnchanged` | promote-release-to-box.py:106-111 | if every released file and sidecar already exists, nothing is written and nothing is fetched |
| `Download.DownloadIdempotent` | promote-release-to-box.py:106-116 | a second download into the same directory fetches nothing and changes no file |
| `Download.NothingReleasedNothingDownloaded` | promote-release-to-box.py:89 | with an empty release map nothing is fetched or written |
| `Download.ListedArtifactsDownloaded` | promote-release-to-box.py:284-286 | a build record whose file name the manifest lists is released, and after the download its file and sidecar exist |

## Left out

- Artifactory access: the JFrog CLI calls, JSON decoding of their output and the `artifacts.json` dump (lines 52-79). The search result is taken as a list of `Artifact` records.
- The download itself (`ArtifactoryPath.writeto`, lines 102-108). It is recorded as a `Fetched(path)` file plus the fetched path. Network and authentication failures, which abort the run, are not modelled.
- YAML parsing (line 129) and reading the manifest file. The parsed tree is the input.
- Non-string list items. A number, boolean or null item makes the `in` test of line 152 raise. A list item is tested by membership instead, so `['$', '{']` is dropped and `['a']` passes the test and then raises as an unhashable key. The model's list items are strings.
- Non-string keys. Only nested labels are built as text (`f"{parent}/{key}"`, line 147). A top-level key keeps its YAML type, so `9.5:` gives a float label, and a top-level `null` key passes `parent=None` to the recursive call, so its children get bare labels. The model's keys are strings.
- Box: the OAuth token request (`generate_access_token`), `set_box_client`, folder creation with its name-collision recovery (`box_create_one_folder`, `box_create_folder`) and the upload (`upload_one_artifact_to_box`, `upload_to_box`). These are remote SDK and HTTP calls. Only the fixed set of fourteen folder labels is kept, as `Release.DestinationLabels`.
- `argparse`, `logging`, `tqdm` and the `__main__` orchestration (lines 248-290).
- `Template.Replace`: models `str.replace` only for a non-empty token. The script always passes the non-empty `${release.version}`.
