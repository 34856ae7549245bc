/**
 * The host filesystem as an immutable tree. A directory's listing is the
 * sequence `readdir` is taken to return. Where a newly created entry shows up
 * in a later `readdir` is up to the operating system; this model puts it at
 * the end of its directory's listing. Lookups take the first entry with a
 * given name.
 *
 * Paths here are lists of entry names read from the filesystem root (see
 * `Paths.Components`). Only the structural failures of `fs` are modelled:
 * a missing parent, a file where a directory is needed, a directory where a
 * file is needed, a directory that already exists.
 */
module FileSystem {
  import opened Results
  import opened Paths

  datatype Node = File(content: string) | Dir(entries: seq<Entry>)

  datatype Entry = Entry(name: string, node: Node)

  datatype IoError =
    | NoSuchEntry(path: string)     // ENOENT
    | NotADirectory(path: string)   // ENOTDIR
    | IsADirectory(path: string)    // EISDIR
    | AlreadyExists(path: string)   // EEXIST

  /** The position of the first entry called `name`, or the listing's length. */
  function Find(es: seq<Entry>, name: string): (i: nat)
    ensures i <= |es|
    ensures i < |es| ==> es[i].name == name
    ensures forall j :: 0 <= j < i ==> es[j].name != name
    decreases |es|
  {
    if es == [] || es[0].name == name then 0 else 1 + Find(es[1..], name)
  }

  lemma {:induction false} FindUnique(es: seq<Entry>, name: string, i: nat)
    requires i <= |es|
    requires i < |es| ==> es[i].name == name
    requires forall j :: 0 <= j < i ==> es[j].name != name
    ensures Find(es, name) == i
  {
  }

  function Child(n: Node, name: string): Option<Node> {
    match n
    case File(_) => None
    case Dir(es) =>
      var i := Find(es, name);
      if i < |es| then Some(es[i].node) else None
  }

  /** The node at `path` below `n`, as `fs.statSync` finds it. */
  function Get(n: Node, path: seq<string>): Option<Node>
    decreases |path|
  {
    if path == [] then Some(n)
    else
      match Child(n, path[0])
      case None => None
      case Some(c) => Get(c, path[1..])
  }

  predicate Exists(n: Node, path: seq<string>) {
    Get(n, path).Some?
  }

  predicate IsDir(n: Node, path: seq<string>) {
    Get(n, path).Some? && Get(n, path).value.Dir?
  }

  /** No file sits at `path`: nothing is there, or a directory is. */
  predicate NotFile(n: Node, path: seq<string>) {
    Get(n, path).Some? ==> Get(n, path).value.Dir?
  }

  /** No file sits at `path` or at any folder above it. */
  predicate NoFileOnPath(n: Node, path: seq<string>) {
    forall j :: 0 <= j <= |path| ==> NotFile(n, path[..j])
  }

  /** `path` can be written: it is the root, or its parent is a directory. */
  predicate CanUpdate(n: Node, path: seq<string>) {
    path == [] || IsDir(n, path[..|path| - 1])
  }

  /**
   * Replaces the first entry called `name`, or adds one. A new entry goes at
   * the end of the listing, a choice of this model rather than an order `fs`
   * promises.
   */
  function SetChild(es: seq<Entry>, name: string, c: Node): seq<Entry> {
    var i := Find(es, name);
    if i < |es| then es[i := Entry(name, c)] else es + [Entry(name, c)]
  }

  /** The tree with the node at `path` replaced by (or created as) `v`. */
  function Update(n: Node, path: seq<string>, v: Node): Node
    requires CanUpdate(n, path)
    decreases |path|
  {
    if path == [] then v
    else if |path| == 1 then Dir(SetChild(n.entries, path[0], v))
    else
      assert path[..|path| - 1][1..] == path[1..][..|path| - 2];
      var c := Child(n, path[0]).value;
      Dir(SetChild(n.entries, path[0], Update(c, path[1..], v)))
  }

  // ---------------------------------------------------------------------------
  // How lookups see updates
  // ---------------------------------------------------------------------------

  lemma {:induction false} ChildSetChildSame(es: seq<Entry>, name: string, c: Node)
    ensures Child(Dir(SetChild(es, name, c)), name) == Some(c)
  {
    var i := Find(es, name);
    var es' := SetChild(es, name, c);
    if i < |es| {
      FindUnique(es', name, i);
    } else {
      FindUnique(es', name, |es|);
    }
  }

  lemma {:induction false} ChildSetChildOther(es: seq<Entry>, name: string, c: Node, other: string)
    requires other != name
    ensures Child(Dir(SetChild(es, name, c)), other) == Child(Dir(es), other)
  {
    var i := Find(es, name);
    var j := Find(es, other);
    var es' := SetChild(es, name, c);
    if i < |es| {
      FindUnique(es', other, j);
    } else if j < |es| {
      FindUnique(es', other, j);
    } else {
      FindUnique(es', other, |es'|);
    }
  }

  /** Below the updated path the tree is the new node. */
  lemma {:induction false} GetUpdateBelow(n: Node, path: seq<string>, v: Node, rest: seq<string>)
    requires CanUpdate(n, path)
    ensures Get(Update(n, path, v), path + rest) == Get(v, rest)
    decreases |path|
  {
    if path != [] {
      var q := path + rest;
      assert q[0] == path[0] && q[1..] == path[1..] + rest;
      if |path| == 1 {
        var t := Dir(SetChild(n.entries, path[0], v));
        assert Update(n, path, v) == t;
        ChildSetChildSame(n.entries, path[0], v);
        assert q[1..] == rest;
        assert Get(t, q) == Get(v, q[1..]);
      } else {
        assert path[..|path| - 1][1..] == path[1..][..|path| - 2];
        var c := Child(n, path[0]).value;
        var u := Update(c, path[1..], v);
        var t := Dir(SetChild(n.entries, path[0], u));
        assert Update(n, path, v) == t;
        ChildSetChildSame(n.entries, path[0], u);
        assert Get(t, q) == Get(u, q[1..]);
        GetUpdateBelow(c, path[1..], v, rest);
      }
    } else {
      assert path + rest == rest;
    }
  }

  lemma {:induction false} GetUpdate(n: Node, path: seq<string>, v: Node)
    requires CanUpdate(n, path)
    ensures Get(Update(n, path, v), path) == Some(v)
  {
    GetUpdateBelow(n, path, v, []);
    assert path + [] == path;
  }

  /** A path that is neither above nor below the updated one sees no change. */
  lemma {:induction false} GetUpdateApart(n: Node, path: seq<string>, v: Node, q: seq<string>)
    requires CanUpdate(n, path)
    requires !(path <= q) && !(q <= path)
    ensures Get(Update(n, path, v), q) == Get(n, q)
    decreases |path|
  {
    if |path| >= 2 {
      assert path[..|path| - 1][1..] == path[1..][..|path| - 2];
    }
    var u := if |path| == 1 then v else Update(Child(n, path[0]).value, path[1..], v);
    assert Update(n, path, v) == Dir(SetChild(n.entries, path[0], u));
    if path[0] != q[0] {
      ChildSetChildOther(n.entries, path[0], u, q[0]);
    } else {
      ChildSetChildSame(n.entries, path[0], u);
      PrefixCons(path, q);
      PrefixCons(q, path);
      GetUpdateApart(Child(n, path[0]).value, path[1..], v, q[1..]);
    }
  }

  /** Two paths with the same first name are prefix-related as their tails are. */
  lemma {:induction false} PrefixCons(a: seq<string>, b: seq<string>)
    requires a != [] && b != [] && a[0] == b[0]
    ensures a <= b <==> a[1..] <= b[1..]
    ensures |a| == 1 ==> a <= b
  {
    assert a == [a[0]] + a[1..];
    assert b == [b[0]] + b[1..];
  }

  /** Every directory above the updated path is still a directory. */
  lemma {:induction false} GetUpdateAbove(n: Node, path: seq<string>, v: Node, q: seq<string>)
    requires CanUpdate(n, path)
    requires q < path
    ensures IsDir(Update(n, path, v), q)
    decreases |path|
  {
    if q != [] {
      assert |path| >= 2;
      assert path[..|path| - 1][1..] == path[1..][..|path| - 2];
      var c := Child(n, path[0]).value;
      var u := Update(c, path[1..], v);
      ChildSetChildSame(n.entries, path[0], u);
      assert q[0] == path[0] && q[1..] < path[1..];
      GetUpdateAbove(c, path[1..], v, q[1..]);
    }
  }

  /** What exists below a path exists at the path, and is a directory there. */
  lemma {:induction false} AncestorsAreDirs(n: Node, path: seq<string>, q: seq<string>)
    requires Exists(n, path) && q < path
    ensures IsDir(n, q)
    decreases |q|
  {
    if q == [] {
      assert Child(n, path[0]).Some?;
    } else {
      assert q[0] == path[0] && q[1..] < path[1..];
      AncestorsAreDirs(Child(n, path[0]).value, path[1..], q[1..]);
    }
  }

  lemma {:induction false} ExistingCanUpdate(n: Node, path: seq<string>)
    requires Exists(n, path)
    ensures CanUpdate(n, path)
  {
    if path != [] {
      AncestorsAreDirs(n, path, path[..|path| - 1]);
    }
  }

  /** Writing back the node that is already there changes nothing. */
  lemma {:induction false} UpdateSame(n: Node, path: seq<string>)
    requires Exists(n, path)
    ensures CanUpdate(n, path) && Update(n, path, Get(n, path).value) == n
    decreases |path|
  {
    ExistingCanUpdate(n, path);
    if path != [] {
      var c := Child(n, path[0]).value;
      var i := Find(n.entries, path[0]);
      if |path| >= 2 {
        assert path[..|path| - 1][1..] == path[1..][..|path| - 2];
        UpdateSame(c, path[1..]);
      }
      assert n.entries[i := Entry(path[0], c)] == n.entries;
    }
  }

  // ---------------------------------------------------------------------------
  // Primitive operations of `fs`
  // ---------------------------------------------------------------------------

  /** The failure of creating `path` when its parent is not a directory. */
  function ParentError(n: Node, c: seq<string>, path: string): IoError
    requires c != []
  {
    var parent := Get(n, c[..|c| - 1]);
    if parent.Some? then NotADirectory(path) else NoSuchEntry(path)
  }

  /** `fs.mkdirSync(path)` without `recursive`: creates one empty directory. */
  function MakeDirectory(fs: Node, path: string): (r: (Node, Outcome<IoError>))
    ensures r.1.Pass? ==> !Exists(fs, Components(path)) && IsDir(r.0, Components(path))
    ensures r.1.Pass? ==> forall q :: !(q <= Components(path)) ==> Get(r.0, q) == Get(fs, q)
    ensures r.1.Fail? <==> Exists(fs, Components(path)) || !CanUpdate(fs, Components(path))
    ensures Exists(fs, Components(path)) ==> r.1 == Fail(AlreadyExists(path))
    ensures r.1.Fail? ==> r.0 == fs
  {
    var c := Components(path);
    if Exists(fs, c) then (fs, Fail(AlreadyExists(path)))
    else if !CanUpdate(fs, c) then (fs, Fail(ParentError(fs, c, path)))
    else
      var fs' := Update(fs, c, Dir([]));
      GetUpdate(fs, c, Dir([]));
      assert forall q :: !(q <= c) ==> Get(fs', q) == Get(fs, q) by {
        forall q | !(q <= c) ensures Get(fs', q) == Get(fs, q) {
          if c <= q {
            var rest := q[|c|..];
            assert q == c + rest;
            GetUpdateBelow(fs, c, Dir([]), rest);
            MissingBelow(fs, c, rest);
          } else {
            GetUpdateApart(fs, c, Dir([]), q);
          }
        }
      }
      (fs', Pass)
  }

  /** Nothing exists below a path that does not exist. */
  lemma {:induction false} MissingBelow(n: Node, path: seq<string>, rest: seq<string>)
    requires !Exists(n, path)
    ensures !Exists(n, path + rest)
    ensures rest != [] ==> Get(Dir([]), rest) == None
  {
    if Exists(n, path + rest) && rest != [] {
      AncestorsAreDirs(n, path + rest, path);
    }
    if rest == [] {
      assert path + rest == path;
    }
  }
}
