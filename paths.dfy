/** File names of build artifacts and their checksum sidecars.

    A build record is identified by its repository path; the release tooling
    only ever looks at the text after the last '/', obtained as
    `path.split('/')[-1]`.  Python's `str.split` with an explicit separator is
    modelled by `Split`, its inverse `str.join` by `Join`.
 */
module Paths {

  /** Python's `sep.join(parts)`. */
  function Join(parts: seq<string>, sep: char): string
  {
    if |parts| == 0 then []
    else if |parts| == 1 then parts[0]
    else parts[0] + [sep] + Join(parts[1..], sep)
  }

  /** Python's `s.split(sep)` for a one-character separator: never empty, no
      part holds the separator, and joining the parts gives back `s`. */
  function Split(s: string, sep: char): (parts: seq<string>)
    ensures |parts| >= 1
    ensures forall i :: 0 <= i < |parts| ==> sep !in parts[i]
    ensures Join(parts, sep) == s
    decreases |s|
  {
    if s == [] then [[]]
    else if s[0] == sep then
      var t := Split(s[1..], sep);
      assert ([[]] + t)[1..] == t;
      [[]] + t
    else
      var t := Split(s[1..], sep);
      var parts := [[s[0]] + t[0]] + t[1..];
      assert parts[1..] == t[1..];
      assert s == [s[0]] + s[1..];
      parts
  }

  /** `Split` is determined by its contract: any non-empty list of
      separator-free parts that joins to `s` is `Split(s, sep)`. */
  lemma {:induction false} SplitUnique(s: string, sep: char, ps: seq<string>)
    requires |ps| >= 1
    requires forall i :: 0 <= i < |ps| ==> sep !in ps[i]
    requires Join(ps, sep) == s
    ensures ps == Split(s, sep)
    decreases |s|
  {
    if |ps| >= 2 {
      assert Join(ps, sep) == ps[0] + [sep] + Join(ps[1..], sep);
      assert s[|ps[0]|] == sep;
    }
    if s == [] {
      assert |ps| == 1;
    } else if s[0] == sep {
      assert ps[0] == [];
      assert |ps| >= 2;
      assert s[1..] == Join(ps[1..], sep);
      SplitUnique(s[1..], sep, ps[1..]);
      assert ps == [[]] + ps[1..];
    } else {
      assert ps[0] != [];
      var qs := [ps[0][1..]] + ps[1..];
      JoinDropFirst(ps, sep);
      forall i | 0 <= i < |qs| ensures sep !in qs[i] {
        if i == 0 { assert forall c :: c in ps[0][1..] ==> c in ps[0]; }
      }
      SplitUnique(s[1..], sep, qs);
      assert ps[0] == [s[0]] + qs[0];
    }
  }

  /** Dropping the first character of a non-empty first part drops the first
      character of the joined text. */
  lemma JoinDropFirst(ps: seq<string>, sep: char)
    requires |ps| >= 1 && ps[0] != []
    ensures Join([ps[0][1..]] + ps[1..], sep) == Join(ps, sep)[1..]
  {
    var qs := [ps[0][1..]] + ps[1..];
    assert qs[1..] == ps[1..];
    if |ps| >= 2 {
      assert Join(qs, sep) == ps[0][1..] + [sep] + Join(ps[1..], sep);
    }
  }

  /** Joining peels off the last part after the final separator. */
  lemma {:induction false} JoinLast(ps: seq<string>, sep: char)
    requires |ps| >= 2
    ensures Join(ps, sep) == Join(ps[..|ps| - 1], sep) + [sep] + ps[|ps| - 1]
    decreases |ps|
  {
    if |ps| > 2 {
      JoinLast(ps[1..], sep);
      assert ps[1..][..|ps| - 2] == ps[..|ps| - 1][1..];
    }
  }

  /** The file name of a repository path: `path.split('/')[-1]`. */
  function FileName(path: string): string
  {
    var parts := Split(path, '/');
    parts[|parts| - 1]
  }

  /** The file name is the text after the last '/': it holds no '/', it ends
      the path, the character just before it is '/', and a path without any
      '/' is its own file name. */
  lemma FileNameIsLastSegment(path: string)
    ensures '/' !in FileName(path)
    ensures |FileName(path)| <= |path|
    ensures path[|path| - |FileName(path)|..] == FileName(path)
    ensures |FileName(path)| < |path| ==> path[|path| - |FileName(path)| - 1] == '/'
    ensures '/' !in path ==> FileName(path) == path
  {
    var parts := Split(path, '/');
    var r := FileName(path);
    if |parts| >= 2 {
      JoinLast(parts, '/');
      var front := Join(parts[..|parts| - 1], '/');
      assert path == front + ['/'] + r;
      assert path[|path| - |r| - 1] == '/';
    }
  }

  /** The name of the checksum file written next to a downloaded artifact. */
  function SidecarName(name: string): string
  {
    name + ".sum"
  }

  /** Distinct artifact names have distinct sidecar names, so a sidecar
      name determines the artifact it belongs to. */
  lemma SidecarNameInjective(f: string, g: string)
    requires SidecarName(f) == SidecarName(g)
    ensures f == g
  {
    assert |f| == |g|;
    assert f == SidecarName(f)[..|f|];
  }

  /** The text of a sidecar file: three `key=value` lines, sha1 first, then
      sha256, then md5, each ended by a newline. */
  function SidecarText(sha1: string, sha256: string, md5: string): string
  {
    "sha1=" + sha1 + "\n" + "sha256=" + sha256 + "\n" + "md5=" + md5 + "\n"
  }

  /** Read back line by line, a sidecar yields exactly its three entries (and
      the empty remainder after the final newline), so the checksums can be
      recovered whenever none of them holds a newline. */
  lemma SidecarLines(sha1: string, sha256: string, md5: string)
    requires '\n' !in sha1 && '\n' !in sha256 && '\n' !in md5
    ensures Split(SidecarText(sha1, sha256, md5), '\n')
         == ["sha1=" + sha1, "sha256=" + sha256, "md5=" + md5, ""]
  {
    var ps := ["sha1=" + sha1, "sha256=" + sha256, "md5=" + md5, ""];
    assert ps[1..][1..][1..] == [""];
    assert Join(ps[1..][1..], '\n') == "md5=" + md5 + "\n";
    assert Join(ps[1..], '\n') == "sha256=" + sha256 + "\n" + "md5=" + md5 + "\n";
    assert Join(ps, '\n') == SidecarText(sha1, sha256, md5);
    forall i | 0 <= i < |ps| ensures '\n' !in ps[i] {
      if i == 0 { assert forall c :: c in ps[0] ==> c in "sha1=" || c in sha1; }
      if i == 1 { assert forall c :: c in ps[1] ==> c in "sha256=" || c in sha256; }
      if i == 2 { assert forall c :: c in ps[2] ==> c in "md5=" || c in md5; }
    }
    SplitUnique(SidecarText(sha1, sha256, md5), '\n', ps);
  }
}
