/** Flattening of the release manifest.

    The parsed manifest is a mapping from group names to either a nested
    mapping or a list of file names.  Flattening turns it into one map from
    file name to destination label, the label being the ancestor keys joined
    with '/'.  Mappings are kept as ordered sequences of pairs so that the
    order in which Python visits a dict, and its overwrite on a repeated key,
    are part of the model.
 */
module Manifest {

  import Paths
  import Template

  datatype Option<T> = None | Some(value: T)

  /** A value of the parsed manifest: a nested mapping, a list of file names,
      or anything else (a number, a string, null), which flattening ignores. */
  datatype Node =
    | Group(entries: seq<(string, Node)>)
    | Leaf(items: seq<string>)
    | Scalar

  /** The destination label of `key` below `parent`: the bare key at the top level,
      `parent/key` further down. */
  function Label(parent: Option<string>, key: string): string
  {
    match parent
    case None => key
    case Some(p) => p + "/" + key
  }

  /** The test that decides whether a list item is kept: `'$' not in item or
      '{' not in item`.  Only an item holding both characters is dropped. */
  predicate Kept(item: string)
  {
    '$' !in item || '{' !in item
  }

  /** The writes `result[item] = dest` that flattening performs on the kept
      items of one list, in list order. */
  function LeafWrites(items: seq<string>, dest: string): seq<(string, string)>
  {
    if items == [] then []
    else
      var last := items[|items| - 1];
      LeafWrites(items[..|items| - 1], dest) + (if Kept(last) then [(last, dest)] else [])
  }

  /** Every write that flattening performs, in traversal order: the writes
      of the entries of the mapping, one entry after the other. */
  function Writes(entries: seq<(string, Node)>, parent: Option<string>): seq<(string, string)>
    decreases entries
  {
    if entries == [] then []
    else
      var last := entries[|entries| - 1];
      assert last in entries;
      Writes(entries[..|entries| - 1], parent) + EntryWrites(last, parent)
  }

  /** The writes of one entry: a nested mapping's writes below the entry's
      label, a list's kept items with that label, nothing for any other value. */
  function EntryWrites(entry: (string, Node), parent: Option<string>): seq<(string, string)>
    decreases entry
  {
    var dest := Label(parent, entry.0);
    match entry.1
    case Group(children) =>
      assert entry.1 < entry;
      Writes(children, Some(dest))
    case Leaf(items) => LeafWrites(items, dest)
    case Scalar => []
  }

  /** The dictionary left by a series of writes, each overwriting any earlier
      entry for the same key. */
  function Collect(writes: seq<(string, string)>): map<string, string>
  {
    if writes == [] then map[]
    else
      var (k, v) := writes[|writes| - 1];
      Collect(writes[..|writes| - 1])[k := v]
  }

  /** `dict.update` after a series of writes is the same as carrying on with
      the writes of the second dictionary. */
  lemma {:induction false} CollectAppend(w1: seq<(string, string)>, w2: seq<(string, string)>)
    ensures Collect(w1 + w2) == Collect(w1) + Collect(w2)
    decreases |w2|
  {
    if w2 != [] {
      var n := |w2| - 1;
      assert (w1 + w2)[..|w1 + w2| - 1] == w1 + w2[..n];
      CollectAppend(w1, w2[..n]);
    } else {
      assert w1 + w2 == w1;
    }
  }

  /** The inner loop of process_manifest_yaml over one list: each kept item
      is written with the current label, on top of what `written` left. */
  method WriteItems(result: map<string, string>, items: seq<string>, current: string,
                    ghost written: seq<(string, string)>)
    returns (updated: map<string, string>)
    requires result == Collect(written)
    ensures updated == Collect(written + LeafWrites(items, current))
  {
    updated := result;
    var j := 0;
    assert written + LeafWrites(items[..0], current) == written;
    while j < |items|
      invariant 0 <= j <= |items|
      invariant updated == Collect(written + LeafWrites(items[..j], current))
    {
      var item := items[j];
      ghost var before := LeafWrites(items[..j], current);
      LeafWritesSnoc(items, j, current);
      if Kept(item) {
        AppendAssoc(written, before, [(item, current)]);
        CollectSnoc(written + before, item, current);
        updated := updated[item := current];
      } else {
        assert before + [] == before;
      }
      j := j + 1;
    }
    assert items[..j] == items;
  }

  /** The writes of one more list item. */
  lemma LeafWritesSnoc(items: seq<string>, j: nat, dest: string)
    requires j < |items|
    ensures LeafWrites(items[..j + 1], dest)
         == LeafWrites(items[..j], dest) + (if Kept(items[j]) then [(items[j], dest)] else [])
  {
    assert items[..j + 1][..j] == items[..j];
  }

  /** One more write updates the dictionary at its key. */
  lemma CollectSnoc(w: seq<(string, string)>, k: string, v: string)
    ensures Collect(w + [(k, v)]) == Collect(w)[k := v]
  {
    assert (w + [(k, v)])[..|w|] == w;
  }

  /** process_manifest_yaml: walk the mapping in order, recursing into nested
      mappings and merging their result with `update`, writing each kept list
      item with the current label. */
  method ProcessManifest(data: seq<(string, Node)>, parent: Option<string>) returns (result: map<string, string>)
    ensures result == Collect(Writes(data, parent))
    decreases data
  {
    result := map[];
    var i := 0;
    while i < |data|
      invariant 0 <= i <= |data|
      invariant result == Collect(Writes(data[..i], parent))
    {
      var (key, value) := data[i];
      var current := Label(parent, key);
      assert data[i] in data && value < data[i];
      assert data[..i + 1][..i] == data[..i];
      ghost var before := Writes(data[..i], parent);
      ghost var after := Writes(data[..i + 1], parent);
      assert after == before + EntryWrites(data[i], parent);
      match value {
        case Group(children) =>
          var sub := ProcessManifest(children, Some(current));
          CollectAppend(before, Writes(children, Some(current)));
          assert after == before + Writes(children, Some(current));
          result := result + sub;
        case Leaf(items) =>
          result := WriteItems(result, items, current, before);
          assert after == before + LeafWrites(items, current);
        case Scalar =>
          assert after == before + [] == before;
      }
      i := i + 1;
    }
    assert data[..i] == data;
  }

  /** The flattened dictionary holds exactly the items that were written at
      least once, and each holds the label of its LAST write: a file name that
      appears in several lists ends up with the label of the last of them. */
  lemma {:induction false} CollectLastWriteWins(w: seq<(string, string)>)
    ensures forall k :: k in Collect(w) <==> exists i :: 0 <= i < |w| && w[i].0 == k
    ensures forall i :: 0 <= i < |w| && (forall j :: i < j < |w| ==> w[j].0 != w[i].0)
                        ==> Collect(w)[w[i].0] == w[i].1
    decreases |w|
  {
    if w != [] {
      var n := |w| - 1;
      var front := w[..n];
      CollectLastWriteWins(front);
      forall k | k in Collect(w) ensures exists i :: 0 <= i < |w| && w[i].0 == k {
        if k != w[n].0 {
          var i :| 0 <= i < |front| && front[i].0 == k;
          assert w[i].0 == k;
        }
      }
      forall i | 0 <= i < |w| && (forall j :: i < j < |w| ==> w[j].0 != w[i].0)
        ensures Collect(w)[w[i].0] == w[i].1
      {
        if i < n {
          assert forall j :: i < j < |front| ==> front[j].0 != front[i].0;
        }
      }
    }
  }

  /** The writes of a list are its kept items, each with the list's label. */
  lemma {:induction false} LeafWritesAre(items: seq<string>, dest: string, item: string, d: string)
    ensures (item, d) in LeafWrites(items, dest) <==> item in items && Kept(item) && d == dest
    decreases |items|
  {
    if items != [] {
      var front := items[..|items| - 1];
      LeafWritesAre(front, dest, item, d);
      assert items == front + [items[|items| - 1]];
    }
  }

  /** Traversal of two consecutive runs of entries writes the first run's
      items, then the second's. */
  lemma {:induction false} WritesAppend(a: seq<(string, Node)>, b: seq<(string, Node)>, parent: Option<string>)
    ensures Writes(a + b, parent) == Writes(a, parent) + Writes(b, parent)
    decreases |b|
  {
    if b == [] {
      assert a + b == a;
    } else {
      var n := |b| - 1;
      WritesSnocAppend(a, b, parent);
      WritesAppend(a, b[..n], parent);
      AppendAssoc(Writes(a, parent), Writes(b[..n], parent), EntryWrites(b[n], parent));
    }
  }

  /** The last entry of `a + b` is the last entry of `b`. */
  lemma WritesSnocAppend(a: seq<(string, Node)>, b: seq<(string, Node)>, parent: Option<string>)
    requires b != []
    ensures Writes(a + b, parent) == Writes(a + b[..|b| - 1], parent) + EntryWrites(b[|b| - 1], parent)
  {
    assert (a + b)[..|a + b| - 1] == a + b[..|b| - 1];
  }

  /** Proof helper, no behaviour of its own: concatenation regroups. */
  lemma AppendAssoc<T>(x: seq<T>, y: seq<T>, z: seq<T>)
    ensures (x + y) + z == x + (y + z)
  {
  }

  /** A key whose value is neither a mapping nor a list contributes nothing:
      removing it leaves the writes, and so the flattened map, unchanged. */
  lemma ScalarContributesNothing(before: seq<(string, Node)>, key: string, after: seq<(string, Node)>,
                                 parent: Option<string>)
    ensures Writes(before + [(key, Scalar)] + after, parent) == Writes(before + after, parent)
  {
    var here := [(key, Scalar)];
    assert Writes(here, parent) == [] by {
      assert here[..0] == [];
      assert EntryWrites((key, Scalar), parent) == [];
    }
    WritesAppend(before, here, parent);
    assert Writes(before + here, parent) == Writes(before, parent);
    WritesAppend(before + here, after, parent);
    WritesAppend(before, after, parent);
  }

  /** `item` is listed in the manifest under the chain of keys `path`: the
      keys lead from the top mapping through nested mappings to a list that
      holds `item`. */
  ghost predicate ListedAt(entries: seq<(string, Node)>, path: seq<string>, item: string)
    decreases |path|
  {
    |path| > 0 &&
    exists i :: 0 <= i < |entries| && entries[i].0 == path[0] &&
      match entries[i].1
      case Leaf(items) => |path| == 1 && item in items
      case Group(children) => ListedAt(children, path[1..], item)
      case Scalar => false
  }

  /** Labels nest: the label of `rest` below `key` below `parent` is the
      label of the whole key chain below `parent`. */
  lemma LabelNests(parent: Option<string>, key: string, rest: seq<string>)
    requires |rest| > 0
    ensures Label(Some(Label(parent, key)), Paths.Join(rest, '/'))
         == Label(parent, Paths.Join([key] + rest, '/'))
  {
    assert ([key] + rest)[1..] == rest;
  }

  /** Every write puts a kept item that the manifest lists under some key
      chain, with that chain joined by '/' below `parent` as its label. */
  lemma {:induction false} WritesSound(entries: seq<(string, Node)>, parent: Option<string>, item: string, dest: string)
    requires (item, dest) in Writes(entries, parent)
    ensures Kept(item)
    ensures exists path :: ListedAt(entries, path, item) && dest == Label(parent, Paths.Join(path, '/'))
    decreases entries
  {
    var n := |entries| - 1;
    var front := entries[..n];
    var (key, value) := entries[n];
    var here := Label(parent, key);
    if (item, dest) in Writes(front, parent) {
      WritesSound(front, parent, item, dest);
      var path :| ListedAt(front, path, item) && dest == Label(parent, Paths.Join(path, '/'));
      var i :| 0 <= i < |front| && front[i].0 == path[0] &&
        match front[i].1
        case Leaf(items) => |path| == 1 && item in items
        case Group(children) => ListedAt(children, path[1..], item)
        case Scalar => false;
      assert entries[i] == front[i];
      assert ListedAt(entries, path, item);
    } else {
      match value
      case Group(children) =>
        assert entries[n] in entries && value < entries[n];
        WritesSound(children, Some(here), item, dest);
        var rest :| ListedAt(children, rest, item) && dest == Label(Some(here), Paths.Join(rest, '/'));
        LabelNests(parent, key, rest);
        var path := [key] + rest;
        assert path[1..] == rest;
        assert ListedAt(entries, path, item);
      case Leaf(items) =>
        LeafWritesAre(items, here, item, dest);
        var path := [key];
        assert ListedAt(entries, path, item);
        assert Paths.Join(path, '/') == key;
      case Scalar =>
    }
  }

  /** Every kept item that the manifest lists under a key chain is written
      with that chain's label. */
  lemma {:induction false} WritesComplete(entries: seq<(string, Node)>, parent: Option<string>, path: seq<string>, item: string)
    requires ListedAt(entries, path, item) && Kept(item)
    ensures (item, Label(parent, Paths.Join(path, '/'))) in Writes(entries, parent)
    decreases entries
  {
    var i :| 0 <= i < |entries| && entries[i].0 == path[0] &&
      match entries[i].1
      case Leaf(items) => |path| == 1 && item in items
      case Group(children) => ListedAt(children, path[1..], item)
      case Scalar => false;
    var n := |entries| - 1;
    var front := entries[..n];
    if i < n {
      assert front[i] == entries[i];
      assert ListedAt(front, path, item);
      WritesComplete(front, parent, path, item);
    } else {
      var (key, value) := entries[n];
      var here := Label(parent, key);
      match value
      case Group(children) =>
        assert entries[n] in entries && value < entries[n];
        WritesComplete(children, Some(here), path[1..], item);
        LabelNests(parent, key, path[1..]);
        assert [key] + path[1..] == path;
      case Leaf(items) =>
        LeafWritesAre(items, here, item, here);
        assert path == [key];
    }
  }

  /** The flattened manifest (parent None, as process_manifest_yaml is first
      called): a file name is a key exactly when some list holds it and it
      passes the placeholder test, and its value is the key chain of one of
      those lists joined with '/'. */
  lemma FlattenedManifest(data: seq<(string, Node)>, item: string)
    ensures item in Collect(Writes(data, None)) <==> Kept(item) && exists path :: ListedAt(data, path, item)
    ensures item in Collect(Writes(data, None)) ==>
              exists path :: ListedAt(data, path, item) && Collect(Writes(data, None))[item] == Paths.Join(path, '/')
  {
    var w := Writes(data, None);
    CollectLastWriteWins(w);
    if item in Collect(w) {
      var i :| 0 <= i < |w| && w[i].0 == item;
      var last := LastWriteOf(w, i);
      assert w[last] in w;
      WritesSound(data, None, item, w[last].1);
    } else if Kept(item) && exists path :: ListedAt(data, path, item) {
      var path :| ListedAt(data, path, item);
      WritesComplete(data, None, path, item);
      assert false;
    }
  }

  /** The index of the last write to the key written at `i`. */
  function LastWriteOf(w: seq<(string, string)>, i: nat): (last: nat)
    requires i < |w|
    ensures i <= last < |w| && w[last].0 == w[i].0
    ensures forall j :: last < j < |w| ==> w[j].0 != w[i].0
    decreases |w| - i
  {
    if exists j :: i < j < |w| && w[j].0 == w[i].0 then
      var j :| i < j < |w| && w[j].0 == w[i].0;
      LastWriteOf(w, j)
    else i
  }

  /** A file listed directly under a top-level key is labelled with the bare
      key, as long as no later list overwrites it. */
  lemma TopLevelListLabel(data: seq<(string, Node)>, key: string, items: seq<string>, item: string)
    requires (key, Leaf(items)) in data && item in items && Kept(item)
    ensures (item, key) in Writes(data, None)
  {
    var i :| 0 <= i < |data| && data[i] == (key, Leaf(items));
    assert ListedAt(data, [key], item);
    WritesComplete(data, None, [key], item);
  }

  /** An item that still holds both '$' and '{' is never a key of the
      flattened manifest, while one holding only one of them is kept. */
  lemma PlaceholderItemsDropped(data: seq<(string, Node)>, item: string)
    ensures '$' in item && '{' in item ==> item !in Collect(Writes(data, None))
    ensures !('$' in item && '{' in item) ==> Kept(item)
  {
    FlattenedManifest(data, item);
  }

  /** A list item that still carries the version placeholder anywhere fails
      the placeholder test, so it is never a key of the flattened manifest. */
  lemma UnsubstitutedEntryDropped(data: seq<(string, Node)>, item: string, i: nat)
    requires Template.OccursAt(item, Template.VersionToken, i)
    ensures !Kept(item)
    ensures item !in Collect(Writes(data, None))
  {
    assert item[i] == Template.VersionToken[0] == '$';
    assert item[i + 1] == Template.VersionToken[1] == '{';
    FlattenedManifest(data, item);
  }

  /** The same entry after substitution is kept and flattened:
      `${release.version}-x.zip` listed under `ee: server:` with version `9.5`
      yields the single entry `9.5-x.zip` labelled `ee/server`. */
  lemma SubstitutedEntryFlattened()
    ensures var item := Template.Substitute("${release.version}-x.zip", "9.5");
            Collect(Writes([("ee", Group([("server", Leaf([item]))]))], None)) == map["9.5-x.zip" := "ee/server"]
  {
    Template.SubstituteExample();
    var item := "9.5-x.zip";
    assert '{' !in item by {
      assert item == ['9', '.', '5', '-', 'x', '.', 'z', 'i', 'p'];
    }
    NestedItemFlattened("ee", "server", item);
    assert "ee" + "/" + "server" == "ee/server";
  }

  /** A kept item alone in a list under `top: sub:` flattens to the single
      entry labelled `top/sub`. */
  lemma NestedItemFlattened(top: string, sub: string, item: string)
    requires Kept(item)
    ensures Collect(Writes([(top, Group([(sub, Leaf([item]))]))], None)) == map[item := top + "/" + sub]
  {
    var dest := top + "/" + sub;
    var items := [item];
    assert LeafWrites(items, dest) == [(item, dest)] by {
      assert items[..0] == [];
    }
    var inner := [(sub, Leaf(items))];
    assert inner[..0] == [];
    assert Writes(inner, Some(top)) == [(item, dest)];
    var data := [(top, Group(inner))];
    assert data[..0] == [];
    assert Writes(data, None) == [(item, dest)];
    var w := [(item, dest)];
    assert w[..0] == [];
  }
}
