/** The part of the file system the modelled code touches: a map from path
    to node. Paths are compared as written; there is no normalisation. */
module Files {
  import Strings

  datatype Node = File(content: string) | Dir

  type Tree = map<string, Node>

  /** `file_exists`. */
  predicate Exists(fs: Tree, path: string) {
    path in fs
  }

  /** `is_file`. */
  predicate IsFile(fs: Tree, path: string) {
    path in fs && fs[path].File?
  }

  /** `is_dir`. */
  predicate IsDir(fs: Tree, path: string) {
    path in fs && fs[path].Dir?
  }

  /** `path` itself or something inside the directory `path`. */
  predicate Under(p: string, path: string) {
    p == path || Strings.StartsWith(p, path + "/")
  }

  /** `Filesystem::remove($path)`: the path and, for a directory, all it holds. */
  function RemoveTree(fs: Tree, path: string): (r: Tree)
    ensures !Exists(r, path)
    ensures forall p :: p in r <==> p in fs && !Under(p, path)
    ensures forall p :: p in r ==> r[p] == fs[p]
  {
    map p | p in fs && !Under(p, path) :: fs[p]
  }

  /** `file_put_contents($path, $content)`. */
  function PutFile(fs: Tree, path: string, content: string): Tree {
    fs[path := File(content)]
  }

  /** The observable effects of one operation, in the order they happen. */
  datatype Effect =
    | Output(message: string)            // `$io->write(...)`
    | Remove(path: string)               // `$fs->remove(...)`
    | Put(path: string, content: string) // `file_put_contents(...)`

  /** The file system after the effects have been carried out. */
  function Apply(fs: Tree, effects: seq<Effect>): Tree
    decreases |effects|
  {
    if |effects| == 0 then fs
    else
      var fs' := match effects[0]
        case Output(_) => fs
        case Remove(p) => RemoveTree(fs, p)
        case Put(p, c) => PutFile(fs, p, c);
      Apply(fs', effects[1..])
  }

  /** The messages written to the console by the effects. */
  function Messages(effects: seq<Effect>): seq<string>
    decreases |effects|
  {
    if |effects| == 0 then []
    else (if effects[0].Output? then [effects[0].message] else []) + Messages(effects[1..])
  }

  /** The number of `remove` calls on `path` among the effects. */
  function RemoveCount(effects: seq<Effect>, path: string): nat
    decreases |effects|
  {
    if |effects| == 0 then 0
    else (if effects[0] == Remove(path) then 1 else 0) + RemoveCount(effects[1..], path)
  }

  /** Effects carried out in two batches land where they land in one. */
  lemma {:induction false} ApplyAppend(fs: Tree, a: seq<Effect>, b: seq<Effect>)
    ensures Apply(fs, a + b) == Apply(Apply(fs, a), b)
    ensures Messages(a + b) == Messages(a) + Messages(b)
    ensures forall path :: RemoveCount(a + b, path) == RemoveCount(a, path) + RemoveCount(b, path)
    decreases |a|
  {
    if |a| > 0 {
      assert (a + b)[1..] == a[1..] + b;
      var fs' := match a[0]
        case Output(_) => fs
        case Remove(p) => RemoveTree(fs, p)
        case Put(p, c) => PutFile(fs, p, c);
      ApplyAppend(fs', a[1..], b);
    } else {
      assert a + b == b;
    }
  }

  /** Removing a path and writing a file there leaves exactly that file at
      the path; the rest of the tree only loses what lay inside the path. */
  lemma RemoveThenPut(fs: Tree, path: string, content: string)
    ensures var fs' := Apply(fs, [Remove(path), Put(path, content)]);
      IsFile(fs', path) && fs'[path].content == content
      && (forall p :: p != path ==> (p in fs' <==> p in fs && !Under(p, path)))
      && (forall p :: p in fs' && p != path ==> fs'[p] == fs[p])
  {
    var e := [Remove(path), Put(path, content)];
    var removed := RemoveTree(fs, path);
    assert e[1..] == [Put(path, content)];
    assert e[1..][1..] == [];
    assert Apply(fs, e) == Apply(removed, e[1..]);
    assert Apply(removed, e[1..]) == Apply(PutFile(removed, path, content), []);
  }
}
