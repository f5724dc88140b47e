/** Version substitution in the release manifest template.

    Before the manifest is parsed, every occurrence of the placeholder
    `${release.version}` in its text is replaced by the release version with
    Python's `str.replace`: occurrences are found left to right and do not
    overlap; text with no occurrence is returned unchanged.
 */
module Template {

  /** The placeholder that the manifest template carries for the version. */
  const VersionToken: string := "${release.version}"

  /** `tok` occurs in `s` starting at index `i`. */
  predicate OccursAt(s: string, tok: string, i: nat)
  {
    i + |tok| <= |s| && s[i..i + |tok|] == tok
  }

  /** Python's `s.replace(tok, v)` for a non-empty `tok`. */
  function Replace(s: string, tok: string, v: string): string
    requires tok != []
    decreases |s|
  {
    if |s| < |tok| then s
    else if s[..|tok|] == tok then v + Replace(s[|tok|..], tok, v)
    else [s[0]] + Replace(s[1..], tok, v)
  }

  /** The substitution of the manifest template: `content.replace('${release.version}', version)`. */
  function Substitute(content: string, version: string): string
  {
    Replace(content, VersionToken, version)
  }

  /** Text in which the token never occurs comes back unchanged. */
  lemma {:induction false} ReplaceWithoutOccurrence(s: string, tok: string, v: string)
    requires tok != []
    requires forall i: nat :: !OccursAt(s, tok, i)
    ensures Replace(s, tok, v) == s
    decreases |s|
  {
    if |s| >= |tok| {
      assert !OccursAt(s, tok, 0);
      forall i: nat ensures !OccursAt(s[1..], tok, i) {
        OccursShift(s, tok, i);
      }
      ReplaceWithoutOccurrence(s[1..], tok, v);
      assert s == [s[0]] + s[1..];
    }
  }

  /** Left to right, non-overlapping: when the first occurrence of the token
      starts at `k`, the result is the text before it, then `v`, then the
      replacement applied only to the text after that occurrence. */
  lemma {:induction false} ReplaceFirstOccurrence(s: string, tok: string, v: string, k: nat)
    requires tok != []
    requires OccursAt(s, tok, k)
    requires forall i: nat :: i < k ==> !OccursAt(s, tok, i)
    ensures Replace(s, tok, v) == s[..k] + v + Replace(s[k + |tok|..], tok, v)
    decreases k
  {
    if k == 0 {
      ReplaceAtMatch(s, tok, v);
      assert s[..k] + v == v;
    } else {
      NoEarlierOccurrenceShift(s, tok, k);
      ReplaceFirstOccurrence(s[1..], tok, v, k - 1);
      ReplaceStep(s, tok, v, k);
    }
  }

  /** Where the token starts the text, it is replaced and replacement goes on
      after it. */
  lemma ReplaceAtMatch(s: string, tok: string, v: string)
    requires tok != [] && OccursAt(s, tok, 0)
    ensures Replace(s, tok, v) == v + Replace(s[|tok|..], tok, v)
  {
    assert s[..|tok|] == s[0..|tok|];
  }

  /** The step of `ReplaceFirstOccurrence` past a first character that does
      not start the token. */
  lemma ReplaceStep(s: string, tok: string, v: string, k: nat)
    requires tok != [] && 0 < k && k + |tok| <= |s|
    requires !OccursAt(s, tok, 0)
    requires Replace(s[1..], tok, v) == s[1..][..k - 1] + v + Replace(s[1..][k - 1 + |tok|..], tok, v)
    ensures Replace(s, tok, v) == s[..k] + v + Replace(s[k + |tok|..], tok, v)
  {
    ReplaceSkip(s, tok, v);
    DropFirstSlices(s, k, |tok|);
    Regroup(s[0], s[1..][..k - 1], v, Replace(s[k + |tok|..], tok, v));
  }

  /** Proof helper, no behaviour of its own: slices of the text without its
      first character, seen in the whole text. */
  lemma DropFirstSlices(s: string, k: nat, n: nat)
    requires 0 < k && k + n <= |s|
    ensures s[1..][k - 1 + n..] == s[k + n..]
    ensures [s[0]] + s[1..][..k - 1] == s[..k]
  {
  }

  /** Proof helper, no behaviour of its own: concatenation regroups around a
      first character. */
  lemma Regroup(c: char, x: string, v: string, r: string)
    ensures [c] + (x + v + r) == [c] + x + v + r
  {
  }

  /** Where the token does not start at the first character, that character
      is copied and replacement goes on with the rest. */
  lemma ReplaceSkip(s: string, tok: string, v: string)
    requires tok != [] && s != []
    requires !OccursAt(s, tok, 0)
    ensures Replace(s, tok, v) == [s[0]] + Replace(s[1..], tok, v)
  {
    if |s| >= |tok| {
      assert s[0..|tok|] == s[..|tok|];
    }
  }

  /** Dropping the first character moves every occurrence one place to the
      left. */
  lemma NoEarlierOccurrenceShift(s: string, tok: string, k: nat)
    requires 0 < k && OccursAt(s, tok, k)
    requires forall i: nat :: i < k ==> !OccursAt(s, tok, i)
    ensures OccursAt(s[1..], tok, k - 1)
    ensures forall i: nat :: i < k - 1 ==> !OccursAt(s[1..], tok, i)
  {
    OccursShift(s, tok, k - 1);
    forall i: nat | i < k - 1 ensures !OccursAt(s[1..], tok, i) {
      OccursShift(s, tok, i);
    }
  }

  /** An occurrence in the text without its first character is an occurrence
      one place further in the whole text. */
  lemma OccursShift(s: string, tok: string, i: nat)
    requires s != []
    ensures OccursAt(s[1..], tok, i) <==> OccursAt(s, tok, i + 1)
  {
    if i + |tok| <= |s| - 1 {
      assert s[1..][i..i + |tok|] == s[i + 1..i + 1 + |tok|];
    }
  }

  /** Replacing the token by itself changes nothing. */
  lemma {:induction false} ReplaceBySelf(s: string, tok: string)
    requires tok != []
    ensures Replace(s, tok, tok) == s
    decreases |s|
  {
    if |s| >= |tok| {
      if s[..|tok|] == tok {
        ReplaceBySelf(s[|tok|..], tok);
        assert s == s[..|tok|] + s[|tok|..];
      } else {
        ReplaceBySelf(s[1..], tok);
        assert s == [s[0]] + s[1..];
      }
    }
  }

  /** A manifest entry written with the placeholder becomes a literal file
      name: `${release.version}-x.zip` with version `9.5` reads `9.5-x.zip`. */
  lemma SubstituteExample()
    ensures Substitute("${release.version}-x.zip", "9.5") == "9.5-x.zip"
  {
    var s := "${release.version}-x.zip";
    assert OccursAt(s, VersionToken, 0);
    ReplaceFirstOccurrence(s, VersionToken, "9.5", 0);
    assert s[|VersionToken|..] == "-x.zip";
    assert Replace("-x.zip", VersionToken, "9.5") == "-x.zip";
  }
}
