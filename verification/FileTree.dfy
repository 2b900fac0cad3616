/** Directory trees as values, and the recursive listing used for backups. */
module FileTree {
  import opened Wrappers
  import opened Collections
  import opened Text

  datatype Node = File(content: string) | Dir(entries: map<string, Node>)

  /** A path relative to some root: the names along the way. */
  type Path = seq<string>

  const MANIFEST_NAME := "manifest.json"

  /** The contents of the file at a path; None when there is no file there. */
  function Lookup(node: Node, path: Path): Option<string> {
    if path == [] then (if node.File? then Some(node.content) else None)
    else if node.Dir? && path[0] in node.entries then Lookup(node.entries[path[0]], path[1..])
    else None
  }

  /** A file below the root whose own name is not that of a manifest, at any depth. */
  predicate Listed(root: Node, path: Path) {
    path != [] && path[|path| - 1] != MANIFEST_NAME && Lookup(root, path).Some?
  }

  /** Lists every file below a directory except those named like a manifest, each once, in the order of their paths. */
  method ListFiles(root: Node) returns (result: seq<Path>)
    requires root.Dir?
    ensures Distinct(result) && InOrder(result)
    ensures forall path :: path in result <==> Listed(root, path)
  {
    var found := Visit(root);
    result := [];
    for i := 0 to |found|
      invariant InOrder(result) && Distinct(result)
      invariant forall path :: path in result <==> path in found[..i]
    {
      assert found[i] !in found[..i] && found[..i + 1] == found[..i] + [found[i]];
      result := Insert(result, found[i]);
    }
    assert found[..|found|] == found;
  }

  /** A path as one string. */
  function PathText(path: Path): string { Join(path, '/') }

  ghost predicate InOrder(paths: seq<Path>) {
    forall i, j :: 0 <= i < j < |paths| ==> !Less(Join(paths[j], '/'), Join(paths[i], '/'))
  }

  method Insert(paths: seq<Path>, path: Path) returns (result: seq<Path>)
    requires InOrder(paths) && Distinct(paths) && path !in paths
    ensures InOrder(result) && Distinct(result) && forall p :: p in result <==> p in paths || p == path
  {
    var k := 0;
    while k < |paths| && !Less(PathText(path), PathText(paths[k]))
      invariant k <= |paths| && forall j :: 0 <= j < k ==> !Less(PathText(path), PathText(paths[j]))
    {
      k := k + 1;
    }
    InsertedInOrder(paths, path, k);
    result := paths[..k] + [path] + paths[k..];
    assert paths == paths[..k] + paths[k..];
  }

  lemma InsertedInOrder(paths: seq<Path>, path: Path, k: nat)
    requires InOrder(paths) && k <= |paths|
    requires forall j :: 0 <= j < k ==> !Less(PathText(path), PathText(paths[j]))
    requires k < |paths| ==> Less(PathText(path), PathText(paths[k]))
    ensures InOrder(paths[..k] + [path] + paths[k..])
  {
    forall j | k <= j < |paths| ensures !Less(PathText(paths[j]), PathText(path)) {
      if Less(PathText(paths[j]), PathText(path)) {
        LessIsTransitive(PathText(paths[j]), PathText(path), PathText(paths[k]));
        LessIsIrreflexive(PathText(paths[k]));
      }
    }
  }

  /** The recursive visit of a directory. */
  method Visit(root: Node) returns (result: seq<Path>)
    requires root.Dir?
    ensures Distinct(result)
    ensures forall path :: path in result <==> Listed(root, path)
    decreases root
  {
    result := [];
    var names := root.entries.Keys;
    while names != {}
      invariant names <= root.entries.Keys
      invariant Distinct(result)
      invariant forall path :: path in result <==> Listed(root, path) && path[0] !in names
      decreases |names|
    {
      var name :| name in names;
      var entry := root.entries[name];
      if entry.Dir? {
        var below := Visit(entry);
        var under := Under(name, below);
        DistinctConcat(result, under);
        result := result + under;
        forall path ensures path in under <==> Listed(root, path) && path[0] == name {
          if Listed(root, path) && path[0] == name {
            assert path == [name] + path[1..];
            assert Lookup(root, path) == Lookup(entry, path[1..]);
            assert path[1..] in below;
          }
        }
      } else if name != MANIFEST_NAME {
        DistinctConcat(result, [[name]]);
        result := result + [[name]];
        forall path: Path | path != [] && path[0] == name ensures Listed(root, path) <==> path == [name] {
          assert Lookup(root, path) == Lookup(entry, path[1..]);
          assert path[1..] == [] <==> path == [name];
        }
        assert Lookup(entry, [name][1..]).Some?;
      } else {
        forall path | path != [] && path[0] == name ensures !Listed(root, path) {
          assert Lookup(root, path) == Lookup(entry, path[1..]);
        }
      }
      names := names - {name};
    }
  }

  function Under(name: string, paths: seq<Path>): (r: seq<Path>)
    ensures |r| == |paths| && forall i :: 0 <= i < |r| ==> r[i] == [name] + paths[i]
    ensures Distinct(paths) ==> Distinct(r)
    ensures forall path :: path in r <==> path != [] && path[0] == name && path[1..] in paths
  {
    var r := seq(|paths|, i requires 0 <= i < |paths| => [name] + paths[i]);
    assert forall i :: 0 <= i < |r| ==> r[i][1..] == paths[i];
    assert forall path | path != [] && path[0] == name && path[1..] in paths :: path in r by {
      forall path | path != [] && path[0] == name && path[1..] in paths ensures path in r {
        var i :| 0 <= i < |paths| && paths[i] == path[1..];
        assert r[i] == path;
      }
    }
    r
  }
}
