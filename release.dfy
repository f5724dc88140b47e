/** Which artifacts of a build are released, and under which label.

    A build is a list of artifact records from the repository search.  The
    release map keeps every file name that the flattened manifest knows and
    that is also the file name of some record in the build; each such file is
    released under its manifest label together with its checksum sidecar
    `<name>.sum`, which carries the same label.
 */
module Release {

  import opened Paths

  /** One record of the repository search: the artifact's path and the
      checksums that the repository reports for it. */
  datatype Artifact = Artifact(path: string, sha1: string, sha256: string, md5: string)

  /** The file names present in a build: `set(path.split('/')[-1] for ...)`. */
  function BuildFileNames(builds: seq<Artifact>): set<string>
  {
    set a | a in builds :: FileName(a.path)
  }

  /** The manifest files found in the build: `set(manifest.keys()) & build names`. */
  function Matched(manifest: map<string, string>, builds: seq<Artifact>): set<string>
  {
    manifest.Keys * BuildFileNames(builds)
  }

  /** The sidecar names of a set of files. */
  function Sidecars(files: set<string>): set<string>
  {
    set f | f in files :: SidecarName(f)
  }

  /** What `get_manifest_buildinfo_intersect` may return.  Its keys are the
      matched files and their sidecars.  Each key holds the value of one of
      the writes made to it: its own manifest label if it is a matched file,
      or the label of the matched file it is the sidecar of.  Python visits
      the matched set in an order the program does not control, so when a
      matched file is also the sidecar name of another matched file, either
      write may be the last. */
  ghost predicate ReleaseMapOf(manifest: map<string, string>, builds: seq<Artifact>, d: map<string, string>)
  {
    var m := Matched(manifest, builds);
    && d.Keys == m + Sidecars(m)
    && forall k :: k in d ==>
         (k in m && d[k] == manifest[k]) ||
         (exists f :: f in m && k == SidecarName(f) && d[k] == manifest[f])
  }

  /** get_manifest_buildinfo_intersect: for each matched file, in whatever
      order the set yields them, write the file and then its sidecar with the
      file's manifest label. */
  method ManifestBuildIntersect(manifest: map<string, string>, builds: seq<Artifact>)
    returns (d: map<string, string>)
    ensures ReleaseMapOf(manifest, builds, d)
  {
    var m := Matched(manifest, builds);
    d := map[];
    var todo := m;
    ghost var done: set<string> := {};
    while todo != {}
      invariant todo + done == m && todo !! done
      invariant d.Keys == done + Sidecars(done)
      invariant forall k :: k in d ==>
                  (k in done && d[k] == manifest[k]) ||
                  (exists f :: f in done && k == SidecarName(f) && d[k] == manifest[f])
      decreases todo
    {
      var f :| f in todo;
      d := d[f := manifest[f]][SidecarName(f) := manifest[f]];
      todo := todo - {f};
      done := done + {f};
    }
  }

  /** Nothing is released from an empty build. */
  lemma EmptyBuildReleasesNothing(manifest: map<string, string>, d: map<string, string>)
    requires ReleaseMapOf(manifest, [], d)
    ensures d == map[]
  {
    assert BuildFileNames([]) == {};
  }

  /** Every released key comes from both inputs: it is a manifest file whose
      name is the file name of a build record, or the sidecar of one. */
  lemma ReleaseKeysFromBoth(manifest: map<string, string>, builds: seq<Artifact>, d: map<string, string>, k: string)
    requires ReleaseMapOf(manifest, builds, d)
    requires k in d
    ensures (k in manifest && exists a :: a in builds && FileName(a.path) == k) ||
            (exists f :: k == SidecarName(f) && f in manifest && exists a :: a in builds && FileName(a.path) == f)
  {
    var m := Matched(manifest, builds);
    if k !in m {
      var f :| f in m && SidecarName(f) == k;
      assert f in BuildFileNames(builds);
    } else {
      assert k in BuildFileNames(builds);
    }
  }

  /** Every released label is a label of the manifest. */
  lemma ReleaseLabelsFromManifest(manifest: map<string, string>, builds: seq<Artifact>, d: map<string, string>)
    requires ReleaseMapOf(manifest, builds, d)
    ensures d.Values <= manifest.Values
  {
    forall v | v in d.Values ensures v in manifest.Values {
      var k :| k in d && d[k] == v;
    }
  }

  /** When no matched file is the sidecar name of another matched file, the
      result is exactly determined: every matched file and its sidecar carry
      the file's manifest label. */
  lemma ReleaseLabelsExact(manifest: map<string, string>, builds: seq<Artifact>, d: map<string, string>, f: string)
    requires ReleaseMapOf(manifest, builds, d)
    requires forall g :: g in Matched(manifest, builds) ==> SidecarName(g) !in Matched(manifest, builds)
    requires f in Matched(manifest, builds)
    ensures f in d && d[f] == manifest[f]
    ensures SidecarName(f) in d && d[SidecarName(f)] == manifest[f]
  {
    var m := Matched(manifest, builds);
    var s := SidecarName(f);
    assert s in Sidecars(m);
    assert s in d && s !in m;
    var g :| g in m && s == SidecarName(g) && d[s] == manifest[g];
    SidecarNameInjective(f, g);
  }

  /** A build holding `dir/a` and `dir/a.sum`, for a name `a` without '/',
      has the file names `a` and `a.sum`; these and `a.sum.sum` are distinct. */
  lemma CollisionBuild(dir: string, a: string)
    requires '/' !in a
    ensures var s := SidecarName(a);
            && BuildFileNames([Artifact(dir + "/" + a, "", "", ""), Artifact(dir + "/" + s, "", "", "")]) == {a, s}
            && a != s && s != SidecarName(s) && a != SidecarName(s)
  {
    var s := SidecarName(a);
    assert '/' !in s by {
      assert forall c :: c in s ==> c in a || c in ".sum";
    }
    FileNameOf(dir, a);
    FileNameOf(dir, s);
    assert |a| < |s| < |SidecarName(s)|;
  }

  /** The two outcomes that Python's set order allows really differ: with
      both `a` and `a.sum` listed in the manifest under different labels and
      present in the build, the key `a.sum` may end with the label of either. */
  lemma SidecarCollisionAmbiguous(dir: string, a: string, la: string, ls: string)
    requires '/' !in a && la != ls
    ensures var manifest := map[a := la, SidecarName(a) := ls];
            var builds := [Artifact(dir + "/" + a, "", "", ""), Artifact(dir + "/" + SidecarName(a), "", "", "")];
            var s := SidecarName(a);
            && ReleaseMapOf(manifest, builds, map[a := la, s := la, SidecarName(s) := ls])
            && ReleaseMapOf(manifest, builds, map[a := la, s := ls, SidecarName(s) := ls])
            && map[a := la, s := la, SidecarName(s) := ls] != map[a := la, s := ls, SidecarName(s) := ls]
  {
    CollisionOutcome(dir, a, la, ls, la);
    CollisionOutcome(dir, a, la, ls, ls);
    var s := SidecarName(a);
    assert map[a := la, s := la, SidecarName(s) := ls][s] != map[a := la, s := ls, SidecarName(s) := ls][s];
  }

  /** Either label of the collision is a possible outcome for `a.sum`. */
  lemma CollisionOutcome(dir: string, a: string, la: string, ls: string, x: string)
    requires '/' !in a && (x == la || x == ls)
    ensures var s := SidecarName(a);
            ReleaseMapOf(map[a := la, s := ls],
                         [Artifact(dir + "/" + a, "", "", ""), Artifact(dir + "/" + s, "", "", "")],
                         map[a := la, s := x, SidecarName(s) := ls])
  {
    var s := SidecarName(a);
    var manifest := map[a := la, s := ls];
    var builds := [Artifact(dir + "/" + a, "", "", ""), Artifact(dir + "/" + s, "", "", "")];
    CollisionBuild(dir, a);
    assert Matched(manifest, builds) == {a, s};
    assert Sidecars({a, s}) == {s, SidecarName(s)};
  }

  /** The file name of `dir/name` is `name` when `name` holds no '/'. */
  lemma FileNameOf(dir: string, name: string)
    requires '/' !in name
    ensures FileName(dir + "/" + name) == name
  {
    var path := dir + "/" + name;
    var r := FileName(path);
    FileNameIsLastSegment(path);
    assert path[|path| - |name| - 1] == '/';
    assert forall j :: |path| - |r| <= j < |path| ==> path[j] == r[j - (|path| - |r|)];
    assert |r| <= |name|;
    assert forall j :: |path| - |name| <= j < |path| ==> path[j] == name[j - (|path| - |name|)];
    assert |r| == |name|;
    assert path[|path| - |name|..] == name;
  }

  /** A build of one record `dir/name` whose file the manifest labels
      `dest` (as `x/foo-1.0.zip` labelled `ee/server`) releases the file and
      its sidecar under `dest`, and nothing else. */
  lemma SingleArtifactRelease(dir: string, name: string, dest: string, sha1: string, sha256: string, md5: string,
                              d: map<string, string>)
    requires '/' !in name
    requires ReleaseMapOf(map[name := dest], [Artifact(dir + "/" + name, sha1, sha256, md5)], d)
    ensures d == map[name := dest, SidecarName(name) := dest]
  {
    var manifest := map[name := dest];
    var builds := [Artifact(dir + "/" + name, sha1, sha256, md5)];
    FileNameOf(dir, name);
    assert BuildFileNames(builds) == {name};
    assert Matched(manifest, builds) == {name};
    assert SidecarName(name) != name by {
      assert |SidecarName(name)| > |name|;
    }
    ReleaseLabelsExact(manifest, builds, d, name);
    assert Sidecars({name}) == {SidecarName(name)};
  }

  /** The destination labels for which folders are created: `ee` with eight
      sub-folders and `ce` with four, fourteen in all. */
  const DestinationLabels: set<string> := {
    "ee", "ee/client-tools", "ee/installers", "ee/other", "ee/patches",
    "ee/plugins", "ee/server", "ee/shims", "ee/upgrade",
    "ce", "ce/client-tools", "ce/plugins", "ce/server", "ce/other"
  }

  /** Upload finds a folder for every released file as long as the manifest
      only uses labels of the fixed folder tree. */
  lemma ReleaseLabelsHaveFolders(manifest: map<string, string>, builds: seq<Artifact>, d: map<string, string>)
    requires ReleaseMapOf(manifest, builds, d)
    requires manifest.Values <= DestinationLabels
    ensures forall k :: k in d ==> d[k] in DestinationLabels
  {
    ReleaseLabelsFromManifest(manifest, builds, d);
    forall k | k in d ensures d[k] in DestinationLabels {
      assert d[k] in d.Values;
    }
  }
}
