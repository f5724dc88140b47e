/** Download of the released artifacts into the working directory.

    For every build record whose file name is released, the artifact is
    fetched from the repository unless a file of that name already exists
    locally, and a checksum sidecar is written unless one already exists.
    The working directory is a map from file name to what the file holds; a
    fetch is recorded as the repository path it came from, so that the bytes
    themselves stay outside the model.
 */
module Download {

  import opened Paths
  import opened Release

  /** What a local file holds: the bytes fetched from a repository path, or a
      text written by the program (or anything else that was there before). */
  datatype LocalFile = Fetched(source: string) | Written(text: string)

  /** The effects of a run so far: the working directory, and the repository
      paths fetched over the network, in order. */
  datatype Effects = Effects(files: map<string, LocalFile>, fetched: seq<string>)

  /** Fetch the artifact of a record under its file name, unless a file of
      that name exists. */
  function Fetch(e: Effects, a: Artifact): Effects
  {
    var name := FileName(a.path);
    if name in e.files then e
    else Effects(e.files[name := Fetched(a.path)], e.fetched + [a.path])
  }

  /** Write the checksum sidecar of a record, unless a file of that name
      exists. */
  function WriteSidecar(e: Effects, a: Artifact): Effects
  {
    var sum := SidecarName(FileName(a.path));
    if sum in e.files then e
    else Effects(e.files[sum := Written(SidecarText(a.sha1, a.sha256, a.md5))], e.fetched)
  }

  /** The effects of handling one build record: nothing unless its file name
      is released, otherwise the fetch and then the sidecar. */
  function Step(e: Effects, release: map<string, string>, a: Artifact): Effects
  {
    if FileName(a.path) !in release then e
    else WriteSidecar(Fetch(e, a), a)
  }

  /** The effects of handling the build records in order. */
  function Run(e: Effects, release: map<string, string>, builds: seq<Artifact>): Effects
  {
    if builds == [] then e
    else Step(Run(e, release, builds[..|builds| - 1]), release, builds[|builds| - 1])
  }

  /** Handling one more record is one more step. */
  lemma RunSnoc(e: Effects, release: map<string, string>, builds: seq<Artifact>, i: nat)
    requires i < |builds|
    ensures Run(e, release, builds[..i + 1]) == Step(Run(e, release, builds[..i]), release, builds[i])
  {
    assert builds[..i + 1][..i] == builds[..i];
  }

  /** The name `download_artifacts_v3` appends for a record: the file name
      when the record is released, and otherwise the record's whole path,
      since the variable is only reassigned inside the `if`. */
  function ListedName(release: map<string, string>, a: Artifact): string
  {
    if FileName(a.path) in release then FileName(a.path) else a.path
  }

  /** The body of the loop of download_artifacts_v3 for one record: the name
      it appends, and the working directory and fetches after it. */
  method DownloadOne(release: map<string, string>, a: Artifact, files: map<string, LocalFile>, fetched: seq<string>)
    returns (fileName: string, files': map<string, LocalFile>, fetched': seq<string>)
    ensures fileName == ListedName(release, a)
    ensures Effects(files', fetched') == Step(Effects(files, fetched), release, a)
  {
    files', fetched' := files, fetched;
    fileName := a.path;
    if FileName(a.path) in release {
      fileName := FileName(a.path);
      var sum := SidecarName(FileName(a.path));
      if fileName !in files' {
        files' := files'[fileName := Fetched(a.path)];
        fetched' := fetched' + [a.path];
      }
      ghost var afterFetch := Effects(files', fetched');
      assert afterFetch == Fetch(Effects(files, fetched), a);
      if sum !in files' {
        files' := files'[sum := Written(SidecarText(a.sha1, a.sha256, a.md5))];
      }
      assert Effects(files', fetched') == WriteSidecar(afterFetch, a);
    }
  }

  /** download_artifacts_v3: one entry per build record, in order, while the
      working directory and the fetches evolve as `Run` says. */
  method DownloadArtifacts(release: map<string, string>, builds: seq<Artifact>, files: map<string, LocalFile>)
    returns (downloaded: seq<string>, after: map<string, LocalFile>, fetched: seq<string>)
    ensures |downloaded| == |builds|
    ensures forall i :: 0 <= i < |builds| ==> downloaded[i] == ListedName(release, builds[i])
    ensures Effects(after, fetched) == Run(Effects(files, []), release, builds)
  {
    downloaded, after, fetched := [], files, [];
    var i := 0;
    while i < |builds|
      invariant 0 <= i <= |builds|
      invariant downloaded == ListedNames(release, builds[..i])
      invariant Effects(after, fetched) == Run(Effects(files, []), release, builds[..i])
    {
      var fileName;
      fileName, after, fetched := DownloadOne(release, builds[i], after, fetched);
      RunSnoc(Effects(files, []), release, builds, i);
      ListedNamesSnoc(release, builds, i);
      downloaded := downloaded + [fileName];
      i := i + 1;
    }
    assert builds[..i] == builds;
  }

  /** The names listed for the records, one per record, in order. */
  function ListedNames(release: map<string, string>, builds: seq<Artifact>): seq<string>
  {
    seq(|builds|, i requires 0 <= i < |builds| => ListedName(release, builds[i]))
  }

  /** Listing one more record appends its name. */
  lemma ListedNamesSnoc(release: map<string, string>, builds: seq<Artifact>, i: nat)
    requires i < |builds|
    ensures ListedNames(release, builds[..i + 1]) == ListedNames(release, builds[..i]) + [ListedName(release, builds[i])]
  {
  }

  /** A record is released when its file name is a key of the release map. */
  predicate Released(release: map<string, string>, a: Artifact)
  {
    FileName(a.path) in release
  }

  /** Files already in the working directory are never touched, and earlier
      fetches stay recorded. */
  lemma {:induction false} RunKeepsExisting(e: Effects, release: map<string, string>, builds: seq<Artifact>)
    ensures forall k :: k in e.files ==>
              k in Run(e, release, builds).files && Run(e, release, builds).files[k] == e.files[k]
    ensures |e.fetched| <= |Run(e, release, builds).fetched|
    ensures Run(e, release, builds).fetched[..|e.fetched|] == e.fetched
    decreases |builds|
  {
    if builds != [] {
      var front := builds[..|builds| - 1];
      RunKeepsExisting(e, release, front);
      var r := Run(e, release, front);
      assert r.fetched[..|e.fetched|] == e.fetched;
      var r2 := Step(r, release, builds[|builds| - 1]);
      assert r2.fetched[..|r.fetched|] == r.fetched;
      assert r2.fetched[..|e.fetched|] == r.fetched[..|e.fetched|];
    }
  }

  /** After a run, every released record's file and its sidecar exist. */
  lemma {:induction false} RunProvides(e: Effects, release: map<string, string>, builds: seq<Artifact>)
    ensures forall i :: 0 <= i < |builds| && Released(release, builds[i]) ==>
              FileName(builds[i].path) in Run(e, release, builds).files &&
              SidecarName(FileName(builds[i].path)) in Run(e, release, builds).files
    decreases |builds|
  {
    if builds != [] {
      var n := |builds| - 1;
      var front := builds[..n];
      RunProvides(e, release, front);
      var r := Run(e, release, front);
      RunKeepsExisting(r, release, [builds[n]]);
      assert [builds[n]][..0] == [];
      assert Run(r, release, [builds[n]]) == Step(r, release, builds[n]);
      forall i | 0 <= i < n ensures builds[i] == front[i] { }
    }
  }

  /** Every file a run creates comes from a released record: either the
      artifact fetched from that record's path under its file name, or the
      sidecar next to it holding that record's three checksums. */
  lemma {:induction false} RunCreatesOnlyReleased(e: Effects, release: map<string, string>, builds: seq<Artifact>, k: string)
    requires k in Run(e, release, builds).files && k !in e.files
    ensures exists i :: 0 <= i < |builds| && Released(release, builds[i]) &&
              ((k == FileName(builds[i].path) && Run(e, release, builds).files[k] == Fetched(builds[i].path)) ||
               (k == SidecarName(FileName(builds[i].path)) &&
                Run(e, release, builds).files[k] == Written(SidecarText(builds[i].sha1, builds[i].sha256, builds[i].md5))))
    decreases |builds|
  {
    var n := |builds| - 1;
    var front := builds[..n];
    var r := Run(e, release, front);
    var a := builds[n];
    var out := Run(e, release, builds);
    if k in r.files {
      RunCreatesOnlyReleased(e, release, front, k);
      RunKeepsExisting(r, release, [a]);
      assert [a][..0] == [];
      var i :| 0 <= i < |front| && Released(release, front[i]) &&
              ((k == FileName(front[i].path) && r.files[k] == Fetched(front[i].path)) ||
               (k == SidecarName(FileName(front[i].path)) &&
                r.files[k] == Written(SidecarText(front[i].sha1, front[i].sha256, front[i].md5))));
      assert builds[i] == front[i];
    } else {
      assert Released(release, a);
      if k == FileName(a.path) {
        assert out.files[k] == Fetched(a.path);
      } else {
        assert out.files[k] == Written(SidecarText(a.sha1, a.sha256, a.md5));
      }
    }
  }

  /** A run fetches only released artifacts whose file name was not already
      in the working directory. */
  lemma {:induction false} RunFetchesOnlyMissing(e: Effects, release: map<string, string>, builds: seq<Artifact>, j: nat)
    requires |e.fetched| <= j < |Run(e, release, builds).fetched|
    ensures exists i :: 0 <= i < |builds| && builds[i].path == Run(e, release, builds).fetched[j] &&
                        Released(release, builds[i]) && FileName(builds[i].path) !in e.files
    decreases |builds|
  {
    var n := |builds| - 1;
    var front := builds[..n];
    var r := Run(e, release, front);
    var a := builds[n];
    RunKeepsExisting(e, release, front);
    assert Run(e, release, builds) == Step(r, release, a);
    if j < |r.fetched| {
      RunFetchesOnlyMissing(e, release, front, j);
      assert Run(e, release, builds).fetched[j] == r.fetched[j];
      var i :| 0 <= i < |front| && front[i].path == r.fetched[j] &&
               Released(release, front[i]) && FileName(front[i].path) !in e.files;
      assert builds[i] == front[i];
    } else {
      assert Run(e, release, builds).fetched[j] == a.path;
      assert FileName(a.path) !in r.files;
      assert FileName(a.path) !in e.files;
      assert builds[n] == a;
    }
  }

  /** Within one run a file name is fetched at most once: the existence test
      also sees the files fetched for earlier records, so two records with
      the same file name (`x/foo.zip`, `y/foo.zip`) give a single fetch.  Each
      fetched file is still in the working directory afterwards, holding what
      was fetched. */
  lemma {:induction false} RunFetchesOnce(e: Effects, release: map<string, string>, builds: seq<Artifact>)
    ensures forall j, k :: |e.fetched| <= j < k < |Run(e, release, builds).fetched| ==>
              FileName(Run(e, release, builds).fetched[j]) != FileName(Run(e, release, builds).fetched[k])
    ensures forall j :: |e.fetched| <= j < |Run(e, release, builds).fetched| ==>
              FileName(Run(e, release, builds).fetched[j]) in Run(e, release, builds).files &&
              Run(e, release, builds).files[FileName(Run(e, release, builds).fetched[j])]
                == Fetched(Run(e, release, builds).fetched[j])
    decreases |builds|
  {
    if builds != [] {
      var n := |builds| - 1;
      var p := Run(e, release, builds[..n]);
      var r := Run(e, release, builds);
      RunFetchesOnce(e, release, builds[..n]);
      StepFetch(p, release, builds[n]);
      assert r == Step(p, release, builds[n]);
      forall j | |e.fetched| <= j < |p.fetched|
        ensures r.fetched[j] == p.fetched[j]
        ensures FileName(r.fetched[j]) in p.files
        ensures FileName(r.fetched[j]) in r.files && r.files[FileName(r.fetched[j])] == Fetched(r.fetched[j])
      {
        assert r.fetched[j] == p.fetched[j];
      }
    }
  }

  /** One step keeps every file and every earlier fetch, and either fetches
      nothing or fetches one artifact whose file name was missing. */
  lemma StepFetch(p: Effects, release: map<string, string>, a: Artifact)
    ensures var r := Step(p, release, a);
            && (forall k :: k in p.files ==> k in r.files && r.files[k] == p.files[k])
            && (r.fetched == p.fetched ||
                (r.fetched == p.fetched + [a.path] && FileName(a.path) !in p.files &&
                 FileName(a.path) in r.files && r.files[FileName(a.path)] == Fetched(a.path)))
  {
    var name := FileName(a.path);
    assert SidecarName(name) != name by {
      assert |SidecarName(name)| > |name|;
    }
  }

  /** A run over a working directory that already holds every released
      record's file and sidecar changes nothing and fetches nothing. */
  lemma {:induction false} RunUnchanged(e: Effects, release: map<string, string>, builds: seq<Artifact>)
    requires forall i :: 0 <= i < |builds| && Released(release, builds[i]) ==>
               FileName(builds[i].path) in e.files && SidecarName(FileName(builds[i].path)) in e.files
    ensures Run(e, release, builds) == e
    decreases |builds|
  {
    if builds != [] {
      var n := |builds| - 1;
      RunUnchanged(e, release, builds[..n]);
    }
  }

  /** Downloading twice into the same working directory: the second run
      fetches nothing and leaves every file as the first run left it. */
  lemma DownloadIdempotent(files: map<string, LocalFile>, release: map<string, string>, builds: seq<Artifact>)
    ensures var first := Run(Effects(files, []), release, builds);
            Run(Effects(first.files, []), release, builds) == Effects(first.files, [])
  {
    var first := Run(Effects(files, []), release, builds);
    RunProvides(Effects(files, []), release, builds);
    RunUnchanged(Effects(first.files, []), release, builds);
  }

  /** With nothing to release, nothing is fetched or written. */
  lemma NothingReleasedNothingDownloaded(e: Effects, builds: seq<Artifact>)
    ensures Run(e, map[], builds) == e
  {
    RunUnchanged(e, map[], builds);
  }

  /** The pipeline from intersection to download: every build record whose
      file name the manifest lists is released, so after the download its
      file and its sidecar are in the working directory. */
  lemma ListedArtifactsDownloaded(manifest: map<string, string>, builds: seq<Artifact>,
                                  release: map<string, string>, files: map<string, LocalFile>, i: nat)
    requires ReleaseMapOf(manifest, builds, release)
    requires i < |builds| && FileName(builds[i].path) in manifest
    ensures Released(release, builds[i])
    ensures FileName(builds[i].path) in Run(Effects(files, []), release, builds).files
    ensures SidecarName(FileName(builds[i].path)) in Run(Effects(files, []), release, builds).files
  {
    assert builds[i] in builds;
    assert FileName(builds[i].path) in Matched(manifest, builds);
    RunProvides(Effects(files, []), release, builds);
  }
}
