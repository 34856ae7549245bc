/**
 * The path and file primitives of the plugin's `FileHelpers` class: trailing
 * separator normalisation, idempotent creation of a folder chain, writing a
 * file only when its content changed, and the layout built from a root path.
 * Each operation on the filesystem takes the tree and returns the new tree
 * with its result.
 */
module FileHelpers {
  import opened Results
  import opened Paths
  import opened FileSystem
  import opened Strapi

  // ---------------------------------------------------------------------------
  // normalizeWithoutTrailingSeparator
  // ---------------------------------------------------------------------------

  /** `path.normalize(p)` with one trailing separator removed, if it has one. */
  function NormalizeWithoutTrailingSeparator(p: string): (r: string)
    ensures r <= Normalize(p)
    ensures |Normalize(p)| - |r| <= 1
    ensures r == Normalize(p) <==> !EndsWith(Normalize(p), [Sep])
  {
    var n := Normalize(p);
    if EndsWith(n, [Sep]) then n[..|n| - 1] else n
  }

  /** A rendered non-empty segment list ends with a separator exactly when it was rendered with one. */
  lemma {:induction false} RenderTrailing(s: seq<string>, absolute: bool, trailing: bool)
    requires s != [] && Clean(s, absolute)
    ensures var q := Render(s, absolute, false);
      && q != "" && q[|q| - 1] != Sep
      && (trailing ==> Render(s, absolute, true) == q + [Sep])
  {
    var q := Render(s, absolute, false);
    SplitRender(s, absolute, false);
    var pre: seq<string> := if absolute then [""] else [];
    assert (pre + s + [])[|pre + s| - 1] == s[|s| - 1];
    assert q != "";
    SplitLast(q);
  }

  /** The string shape of the result: the normal form, rendered without a trailing separator. */
  lemma {:induction false} TrimmedShape(p: string)
    ensures p == "" ==> NormalizeWithoutTrailingSeparator(p) == "."
    ensures p != "" ==>
      var absolute := p[0] == Sep;
      var s := Resolve([], Split(p), absolute);
      && Clean(s, absolute)
      && NormalizeWithoutTrailingSeparator(p)
         == (if s == [] then (if absolute then "" else ".") else Render(s, absolute, false))
  {
    if p != "" {
      var absolute := p[0] == Sep;
      var s := Resolve([], Split(p), absolute);
      ResolveClean([], Split(p), absolute);
      TrimRendered(s, absolute, p[|p| - 1] == Sep);
    }
  }

  lemma {:induction false} TrimRendered(s: seq<string>, absolute: bool, trailing: bool)
    requires Clean(s, absolute)
    ensures var n := Render(s, absolute, trailing);
      (if EndsWith(n, [Sep]) then n[..|n| - 1] else n)
      == (if s == [] then (if absolute then "" else ".") else Render(s, absolute, false))
  {
    var n := Render(s, absolute, trailing);
    if s != [] {
      var q := Render(s, absolute, false);
      RenderTrailing(s, absolute, trailing);
      if trailing {
        assert n == q + [Sep];
        assert (q + [Sep])[..|q|] == q;
      } else {
        assert n == q;
      }
    } else if absolute {
      assert n == "/";
    } else if trailing {
      assert n == "./";
    } else {
      assert n == ".";
    }
  }

  /** No separator is left at the end, except in the empty result of normalising `/`. */
  lemma {:induction false} TrimmedHasNoTrailingSeparator(p: string)
    ensures var r := NormalizeWithoutTrailingSeparator(p); r == "" || r[|r| - 1] != Sep
  {
    TrimmedShape(p);
    if p != "" {
      var absolute := p[0] == Sep;
      var s := Resolve([], Split(p), absolute);
      if s != [] {
        RenderTrailing(s, absolute, false);
      }
    }
  }

  /** Trimming is idempotent on every non-empty result. */
  lemma {:induction false} TrimmedIdempotent(p: string)
    requires NormalizeWithoutTrailingSeparator(p) != ""
    ensures NormalizeWithoutTrailingSeparator(NormalizeWithoutTrailingSeparator(p))
         == NormalizeWithoutTrailingSeparator(p)
  {
    TrimmedShape(p);
    var r := NormalizeWithoutTrailingSeparator(p);
    if p == "" || r == "." {
      SplitDot();
    } else {
      var absolute := p[0] == Sep;
      var s := Resolve([], Split(p), absolute);
      RenderIsNormal(s, absolute, false);
      TrimmedHasNoTrailingSeparator(p);
    }
  }

  /** Trimming does not move the directory a path resolves to. */
  lemma {:induction false} TrimmedComponents(p: string)
    ensures Components(NormalizeWithoutTrailingSeparator(p)) == Components(p)
  {
    ComponentsOfNormalize(p);
    var n := Normalize(p);
    var r := NormalizeWithoutTrailingSeparator(p);
    if r != n {
      TrimmedShape(p);
      assert n == r + [Sep];
      SplitConcat(r, "");
      assert r + [Sep] + "" == n;
      assert Split("") == [""];
      ResolveAppend([], Split(r), [""], true);
    }
  }

  // ---------------------------------------------------------------------------
  // ensureFolderPathExistRecursive
  // ---------------------------------------------------------------------------

  /**
   * The tree only grows by folders: nothing that existed disappears, no file
   * changes, and no file appears where there was none.
   */
  ghost predicate Grows(before: Node, after: Node) {
    && (forall q :: Exists(before, q) ==>
          && Exists(after, q)
          && (Get(before, q).value.File? ==> Get(after, q) == Get(before, q)))
    && (forall q :: NotFile(before, q) ==> NotFile(after, q))
  }

  lemma {:induction false} MakeDirectoryGrows(fs: Node, path: string)
    requires MakeDirectory(fs, path).1.Pass?
    ensures Grows(fs, MakeDirectory(fs, path).0)
  {
    var c := Components(path);
    var fs' := MakeDirectory(fs, path).0;
    forall q | Exists(fs, q)
      ensures Exists(fs', q) && (Get(fs, q).value.File? ==> Get(fs', q) == Get(fs, q))
    {
      if q <= c {
        assert q != c;
        assert CanUpdate(fs, c);
        assert fs' == Update(fs, c, Dir([]));
        assert q <= c[..|c| - 1];
        var parent := c[..|c| - 1];
        if q == parent {
          assert IsDir(fs, parent);
        } else {
          AncestorsAreDirs(fs, parent, q);
        }
        GetUpdateAbove(fs, c, Dir([]), q);
        assert IsDir(fs', q);
      } else {
        assert Get(fs', q) == Get(fs, q);
      }
    }
    forall q | NotFile(fs, q) ensures NotFile(fs', q) {
      if q == c {
        assert IsDir(fs', c);
      } else if q <= c {
        AncestorsAreDirs(fs', c, q);
      } else {
        assert Get(fs', q) == Get(fs, q);
      }
    }
  }

  /** The directory after each step of the walk down `subfolders`. */
  function Folders(start: string, subfolders: seq<string>): (r: seq<string>)
    ensures |r| == |subfolders|
    decreases |subfolders|
  {
    if subfolders == [] then []
    else
      var folder := Join(start, subfolders[0]);
      [folder] + Folders(folder, subfolders[1..])
  }

  /**
   * `ensureFolderPathExistRecursive(start, ...subfolders)`: join the subfolders
   * one at a time and create each directory that does not exist yet; the
   * result is the last directory, or `start` when there are no subfolders.
   */
  function EnsureFolderPathExistRecursive(fs: Node, start: string, subfolders: seq<string>)
    : (r: (Node, Result<string, IoError>))
    ensures subfolders == [] ==> r == (fs, Ok(start))
    ensures Grows(fs, r.0)
    ensures r.1.Ok? ==>
      forall i :: 0 <= i < |subfolders| ==> Exists(r.0, Components(Folders(start, subfolders)[i]))
    ensures r.1.Ok? && (forall i :: 0 <= i < |subfolders| ==> Sep !in subfolders[i]) ==>
      Components(r.1.value) == Resolve(Components(start), subfolders, true)
    ensures r.1.Ok? && subfolders != [] ==>
      r.1.value == Folders(start, subfolders)[|subfolders| - 1] && Exists(r.0, Components(r.1.value))
    decreases |subfolders|
  {
    if subfolders == [] then (fs, Ok(start))
    else
      var folder := Join(start, subfolders[0]);
      var rest := subfolders[1..];
      JoinComponents(start, subfolders[0]);
      SplitNoSepWhenPlain(subfolders);
      FoldersLast(start, subfolders);
      if Exists(fs, Components(folder)) then
        var r := EnsureFolderPathExistRecursive(fs, folder, rest);
        FoldersExist(fs, r.0, start, subfolders, r.1.Ok?);
        r
      else
        var made := MakeDirectory(fs, folder);
        if made.1.Fail? then (made.0, Err(made.1.error))
        else
          MakeDirectoryGrows(fs, folder);
          var r := EnsureFolderPathExistRecursive(made.0, folder, rest);
          GrowsTransitive(fs, made.0, r.0);
          FoldersExist(made.0, r.0, start, subfolders, r.1.Ok?);
          r
  }

  /** The first folder exists before and the tree only grows, so with the later ones all exist after. */
  lemma {:induction false} FoldersExist(before: Node, after: Node, start: string, subfolders: seq<string>, ok: bool)
    requires subfolders != [] && Grows(before, after)
    requires Exists(before, Components(Join(start, subfolders[0])))
    requires ok ==> forall i :: 0 <= i < |subfolders| - 1 ==>
      Exists(after, Components(Folders(Join(start, subfolders[0]), subfolders[1..])[i]))
    ensures ok ==> forall i :: 0 <= i < |subfolders| ==> Exists(after, Components(Folders(start, subfolders)[i]))
  {
    var folder := Join(start, subfolders[0]);
    var chain := Folders(start, subfolders);
    assert chain == [folder] + Folders(folder, subfolders[1..]);
    if ok {
      forall i | 0 <= i < |subfolders| ensures Exists(after, Components(chain[i])) {
        if i > 0 {
          assert chain[i] == Folders(folder, subfolders[1..])[i - 1];
        }
      }
    }
  }

  /** The last folder of the chain is the first folder, or the last folder of the chain after it. */
  lemma {:induction false} FoldersLast(start: string, subfolders: seq<string>)
    requires subfolders != []
    ensures var folder := Join(start, subfolders[0]);
      && Folders(start, subfolders)[0] == folder
      && (|subfolders| > 1 ==>
            Folders(start, subfolders)[|subfolders| - 1] == Folders(folder, subfolders[1..])[|subfolders| - 2])
  {
    var folder := Join(start, subfolders[0]);
    assert Folders(start, subfolders) == [folder] + Folders(folder, subfolders[1..]);
  }

  lemma {:induction false} SplitNoSepWhenPlain(subfolders: seq<string>)
    requires subfolders != []
    ensures Sep !in subfolders[0] ==> Split(subfolders[0]) == [subfolders[0]]
  {
    if Sep !in subfolders[0] {
      SplitNoSep(subfolders[0]);
    }
  }

  lemma {:induction false} GrowsTransitive(a: Node, b: Node, c: Node)
    requires Grows(a, b) && Grows(b, c)
    ensures Grows(a, c)
  {
    forall q | Exists(a, q)
      ensures Exists(c, q) && (Get(a, q).value.File? ==> Get(c, q) == Get(a, q))
    {
      assert Exists(b, q);
    }
    forall q | NotFile(a, q) ensures NotFile(c, q) {
      assert NotFile(b, q);
    }
  }

  /** When every directory of the chain already exists, nothing is created. */
  lemma {:induction false} EnsureFolderPathExistRecursiveNoOp(fs: Node, start: string, subfolders: seq<string>)
    requires forall i :: 0 <= i < |subfolders| ==> Exists(fs, Components(Folders(start, subfolders)[i]))
    ensures EnsureFolderPathExistRecursive(fs, start, subfolders).0 == fs
    ensures EnsureFolderPathExistRecursive(fs, start, subfolders).1.Ok?
    decreases |subfolders|
  {
    if subfolders != [] {
      var folder := Join(start, subfolders[0]);
      assert Folders(start, subfolders)[0] == folder;
      forall i | 0 <= i < |subfolders| - 1
        ensures Exists(fs, Components(Folders(folder, subfolders[1..])[i]))
      {
        assert Folders(folder, subfolders[1..])[i] == Folders(start, subfolders)[i + 1];
      }
      EnsureFolderPathExistRecursiveNoOp(fs, folder, subfolders[1..]);
    }
  }

  /** A second call with the same arguments changes nothing and returns the same folder. */
  lemma {:induction false} EnsureFolderPathExistRecursiveIdempotent(fs: Node, start: string, subfolders: seq<string>)
    requires EnsureFolderPathExistRecursive(fs, start, subfolders).1.Ok?
    ensures var r := EnsureFolderPathExistRecursive(fs, start, subfolders);
      EnsureFolderPathExistRecursive(r.0, start, subfolders) == r
  {
    var r := EnsureFolderPathExistRecursive(fs, start, subfolders);
    EnsureFolderPathExistRecursiveNoOp(r.0, start, subfolders);
  }

  /** One step from a folder either stays at a folder that exists or goes down to a child of it. */
  lemma {:induction false} StepExistsOrChild(n: Node, p: seq<string>, seg: string)
    requires IsDir(n, p) && forall i :: 0 <= i < |p| ==> IsPlain(p[i])
    ensures Exists(n, Step(p, seg, true)) || Step(p, seg, true) == p + [seg]
  {
    if seg == ".." && |p| > 0 {
      AncestorsAreDirs(n, p, p[..|p| - 1]);
    }
  }

  /** Joining a segment without separators takes one step from the folder. */
  lemma {:induction false} JoinStep(start: string, seg: string)
    requires Sep !in seg
    ensures Components(Join(start, seg)) == Step(Components(start), seg, true)
  {
    JoinComponents(start, seg);
    SplitNoSep(seg);
    assert Resolve(Components(start), [seg], true) == Resolve(Step(Components(start), seg, true), [], true);
  }

  /**
   * The walk succeeds when it starts in a folder and no folder of the chain is
   * a file; afterwards every folder of the chain is a directory.
   */
  lemma {:induction false} EnsureFolderPathExistRecursiveSucceeds(fs: Node, start: string, subfolders: seq<string>)
    requires IsDir(fs, Components(start))
    requires forall i :: 0 <= i < |subfolders| ==> Sep !in subfolders[i]
    requires forall i :: 0 <= i < |subfolders| ==> NotFile(fs, Components(Folders(start, subfolders)[i]))
    ensures var r := EnsureFolderPathExistRecursive(fs, start, subfolders);
      && r.1.Ok?
      && forall i :: 0 <= i < |subfolders| ==> IsDir(r.0, Components(Folders(start, subfolders)[i]))
    decreases |subfolders|
  {
    if subfolders != [] {
      var folder := Join(start, subfolders[0]);
      var rest := subfolders[1..];
      EnsureUnfold(fs, start, subfolders);
      ChainTail(fs, start, subfolders);
      NextFolder(fs, start, subfolders[0]);
      var next := if Exists(fs, Components(folder)) then fs else MakeDirectory(fs, folder).0;
      NotFileAfter(fs, next, folder, rest);
      EnsureFolderPathExistRecursiveSucceeds(next, folder, rest);
      var r := EnsureFolderPathExistRecursive(next, folder, rest);
      assert IsDir(r.0, Components(folder)) by {
        assert Exists(r.0, Components(folder)) && NotFile(r.0, Components(folder));
      }
      ChainHead(r.0, start, subfolders);
    }
  }

  /** The `i`-th folder of the walk is the start resolved through the first `i + 1` subfolders. */
  lemma {:induction false} FoldersComponents(start: string, subfolders: seq<string>, i: nat)
    requires i < |subfolders|
    requires forall j :: 0 <= j < |subfolders| ==> Sep !in subfolders[j]
    ensures Components(Folders(start, subfolders)[i]) == Resolve(Components(start), subfolders[..i + 1], true)
    decreases i
  {
    var folder := Join(start, subfolders[0]);
    var rest := subfolders[1..];
    JoinStep(start, subfolders[0]);
    assert Folders(start, subfolders) == [folder] + Folders(folder, rest);
    if i == 0 {
      assert subfolders[..1] == [subfolders[0]];
      assert Resolve(Components(start), [subfolders[0]], true)
          == Resolve(Step(Components(start), subfolders[0], true), [], true);
    } else {
      forall j | 0 <= j < |rest| ensures Sep !in rest[j] {
        assert rest[j] == subfolders[j + 1];
      }
      FoldersComponents(folder, rest, i - 1);
      assert Folders(start, subfolders)[i] == Folders(folder, rest)[i - 1];
      ResolvePrefixCons(Components(start), subfolders, i);
    }
  }

  /** Resolving the first `i + 1` segments is taking the first step, then resolving the next `i`. */
  lemma {:induction false} ResolvePrefixCons(stack: seq<string>, segs: seq<string>, i: nat)
    requires i < |segs|
    ensures Resolve(stack, segs[..i + 1], true) == Resolve(Step(stack, segs[0], true), segs[1..][..i], true)
  {
    var p := segs[..i + 1];
    assert p[0] == segs[0] && p[1..] == segs[1..][..i];
  }

  /** One step of the walk, unfolded. */
  lemma {:induction false} EnsureUnfold(fs: Node, start: string, subfolders: seq<string>)
    requires subfolders != []
    ensures var folder := Join(start, subfolders[0]);
      var made := MakeDirectory(fs, folder);
      EnsureFolderPathExistRecursive(fs, start, subfolders)
      == if Exists(fs, Components(folder)) then EnsureFolderPathExistRecursive(fs, folder, subfolders[1..])
         else if made.1.Fail? then (made.0, Err(made.1.error))
         else EnsureFolderPathExistRecursive(made.0, folder, subfolders[1..])
  {
  }

  /** The first folder of a chain with no file on it is a folder once the step is taken. */
  lemma {:induction false} NextFolder(fs: Node, start: string, seg: string)
    requires IsDir(fs, Components(start)) && Sep !in seg
    requires NotFile(fs, Components(Join(start, seg)))
    ensures var folder := Join(start, seg);
      var next := if Exists(fs, Components(folder)) then fs else MakeDirectory(fs, folder).0;
      && (!Exists(fs, Components(folder)) ==> MakeDirectory(fs, folder).1.Pass?)
      && Grows(fs, next)
      && IsDir(next, Components(folder))
  {
    var folder := Join(start, seg);
    var c := Components(folder);
    JoinStep(start, seg);
    if !Exists(fs, c) {
      StepExistsOrChild(fs, Components(start), seg);
      assert c[..|c| - 1] == Components(start);
      MakeDirectoryGrows(fs, folder);
    }
  }

  /** The chain after its first folder, and what is known of that folder. */
  lemma {:induction false} ChainTail(fs: Node, start: string, subfolders: seq<string>)
    requires subfolders != []
    requires forall i :: 0 <= i < |subfolders| ==> Sep !in subfolders[i]
    requires forall i :: 0 <= i < |subfolders| ==> NotFile(fs, Components(Folders(start, subfolders)[i]))
    ensures var folder := Join(start, subfolders[0]);
      && Sep !in subfolders[0]
      && NotFile(fs, Components(folder))
      && (forall i :: 0 <= i < |subfolders| - 1 ==> Sep !in subfolders[1..][i])
      && (forall i :: 0 <= i < |subfolders| - 1 ==>
            NotFile(fs, Components(Folders(folder, subfolders[1..])[i])))
  {
    var folder := Join(start, subfolders[0]);
    var chain := Folders(start, subfolders);
    assert chain == [folder] + Folders(folder, subfolders[1..]);
    assert chain[0] == folder;
    forall i | 0 <= i < |subfolders| - 1
      ensures Sep !in subfolders[1..][i] && NotFile(fs, Components(Folders(folder, subfolders[1..])[i]))
    {
      assert subfolders[1..][i] == subfolders[i + 1];
      assert chain[i + 1] == Folders(folder, subfolders[1..])[i];
    }
  }

  /** A tree that grows keeps every place without a file free of files. */
  lemma {:induction false} NotFileAfter(fs: Node, next: Node, folder: string, rest: seq<string>)
    requires Grows(fs, next)
    requires forall i :: 0 <= i < |rest| ==> NotFile(fs, Components(Folders(folder, rest)[i]))
    ensures forall i :: 0 <= i < |rest| ==> NotFile(next, Components(Folders(folder, rest)[i]))
  {
  }

  /** The first folder and the rest of the chain make up the whole chain. */
  lemma {:induction false} ChainHead(n: Node, start: string, subfolders: seq<string>)
    requires subfolders != []
    requires IsDir(n, Components(Join(start, subfolders[0])))
    requires forall i :: 0 <= i < |subfolders| - 1 ==>
      IsDir(n, Components(Folders(Join(start, subfolders[0]), subfolders[1..])[i]))
    ensures forall i :: 0 <= i < |subfolders| ==> IsDir(n, Components(Folders(start, subfolders)[i]))
  {
    var folder := Join(start, subfolders[0]);
    var chain := Folders(start, subfolders);
    assert chain == [folder] + Folders(folder, subfolders[1..]);
    forall i | 0 <= i < |subfolders| ensures IsDir(n, Components(chain[i])) {
      if i > 0 {
        assert chain[i] == Folders(folder, subfolders[1..])[i - 1];
      }
    }
  }

  // ---------------------------------------------------------------------------
  // writeInterfaceFile
  // ---------------------------------------------------------------------------

  /**
   * `writeInterfaceFile(folderPath, fileName, content)`: write the file unless
   * it already holds exactly `content`; the joined path is returned either way.
   */
  function WriteInterfaceFile(fs: Node, folderPath: string, fileName: string, content: string)
    : (r: (Node, Result<string, IoError>))
    ensures r.1.Ok? ==> r.1.value == Join(folderPath, fileName)
    ensures r.1.Ok? ==> Get(r.0, Components(Join(folderPath, fileName))) == Some(File(content))
    ensures Get(fs, Components(Join(folderPath, fileName))) == Some(File(content)) ==> r.0 == fs
    ensures r.1.Err? <==>
      var c := Components(Join(folderPath, fileName)); IsDir(fs, c) || !CanUpdate(fs, c)
    ensures r.1.Err? ==> r.0 == fs
    ensures forall q :: !(q <= Components(Join(folderPath, fileName))) ==> Get(r.0, q) == Get(fs, q)
  {
    var destination := Join(folderPath, fileName);
    var c := Components(destination);
    var existing := Get(fs, c);
    if existing == Some(File(content)) then
      ExistingCanUpdate(fs, c);
      (fs, Ok(destination))
    else if existing.Some? && existing.value.Dir? then
      (fs, Err(IsADirectory(destination)))
    else if !CanUpdate(fs, c) then
      (fs, Err(ParentError(fs, c, destination)))
    else
      var fs' := Update(fs, c, File(content));
      GetUpdate(fs, c, File(content));
      assert forall q :: !(q <= c) ==> Get(fs', q) == Get(fs, q) by {
        forall q | !(q <= c) ensures Get(fs', q) == Get(fs, q) {
          if c <= q {
            var rest := q[|c|..];
            assert q == c + rest && rest != [];
            GetUpdateBelow(fs, c, File(content), rest);
            if Exists(fs, q) {
              AncestorsAreDirs(fs, q, c);
            }
          } else {
            GetUpdateApart(fs, c, File(content), q);
          }
        }
      }
      (fs', Ok(destination))
  }

  // ---------------------------------------------------------------------------
  // buildStrapiDirectoriesFromRootPath
  // ---------------------------------------------------------------------------

  /** The layout below an already normalised root. */
  function Layout(root: string): StrapiDirectories {
    var src := Join(root, "src");
    StrapiDirectories(
      AppDirectories(
        root := root,
        src := src,
        api := Join(src, "api"),
        components := Join(src, "components"),
        extensions := Join(src, "extensions"),
        policies := Join(src, "policies"),
        middlewares := Join(src, "middlewares"),
        config := Join(root, "config")),
      distRoot := Join(root, "dist"),
      staticPublic := Join(root, "public"))
  }

  /** `buildStrapiDirectoriesFromRootPath(rootPath)`: the layout of a project rooted at `rootPath`. */
  function BuildStrapiDirectoriesFromRootPath(rootPath: string): StrapiDirectories {
    Layout(NormalizeWithoutTrailingSeparator(rootPath))
  }

  /** Every folder name the layout joins is a plain entry name. */
  lemma LayoutNamesPlain()
    ensures IsPlain("src") && IsPlain("config") && IsPlain("dist") && IsPlain("public")
    ensures IsPlain("api") && IsPlain("components") && IsPlain("extensions")
    ensures IsPlain("policies") && IsPlain("middlewares")
  {
  }

  /** `src`, `config`, `dist` and `public` are entries of the root; the five user folders are entries of `src`. */
  lemma {:induction false} LayoutNesting(root: string)
    ensures var d := Layout(root);
      && Components(d.app.src) == Components(root) + ["src"]
      && Components(d.app.config) == Components(root) + ["config"]
      && Components(d.distRoot) == Components(root) + ["dist"]
      && Components(d.staticPublic) == Components(root) + ["public"]
      && Components(d.app.api) == Components(d.app.src) + ["api"]
      && Components(d.app.components) == Components(d.app.src) + ["components"]
      && Components(d.app.extensions) == Components(d.app.src) + ["extensions"]
      && Components(d.app.policies) == Components(d.app.src) + ["policies"]
      && Components(d.app.middlewares) == Components(d.app.src) + ["middlewares"]
  {
    var src := Join(root, "src");
    LayoutNamesPlain();
    JoinPlainComponents(root, "src");
    JoinPlainComponents(root, "config");
    JoinPlainComponents(root, "dist");
    JoinPlainComponents(root, "public");
    JoinPlainComponents(src, "api");
    JoinPlainComponents(src, "components");
    JoinPlainComponents(src, "extensions");
    JoinPlainComponents(src, "policies");
    JoinPlainComponents(src, "middlewares");
  }

  /** The root of the layout is the trimmed root path, and every folder sits where `LayoutNesting` says. */
  lemma {:induction false} StrapiDirectoriesNesting(rootPath: string)
    ensures var d := BuildStrapiDirectoriesFromRootPath(rootPath);
      && d.app.root == NormalizeWithoutTrailingSeparator(rootPath)
      && Components(d.app.root) == Components(rootPath)
      && Components(d.app.src) == Components(rootPath) + ["src"]
      && Components(d.app.api) == Components(rootPath) + ["src", "api"]
      && Components(d.app.components) == Components(rootPath) + ["src", "components"]
      && Components(d.app.extensions) == Components(rootPath) + ["src", "extensions"]
  {
    var root := NormalizeWithoutTrailingSeparator(rootPath);
    var c := Components(rootPath);
    TrimmedComponents(rootPath);
    LayoutNesting(root);
    AppendTwo(c, "src", "api");
    AppendTwo(c, "src", "components");
    AppendTwo(c, "src", "extensions");
  }

  /** Appending two names one after the other. */
  lemma AppendTwo(c: seq<string>, a: string, b: string)
    ensures (c + [a]) + [b] == c + [a, b]
  {
  }

  /** Joining a plain name to a rendered path appends one segment to the rendering. */
  lemma {:induction false} RenderedChild(s: seq<string>, absolute: bool, name: string)
    requires s != [] && Clean(s, absolute) && IsPlain(name)
    ensures Clean(s + [name], absolute)
    ensures Join(Render(s, absolute, false), name) == Render(s + [name], absolute, false)
    ensures StartsWith(Render(s + [name], absolute, false), Render(s, absolute, false))
  {
    JoinPlainRendered(s, absolute, name);
    var s' := s + [name];
    forall i, j | 0 <= i < j < |s'| && s'[j] == ".." ensures s'[i] == ".." {
      assert j < |s|;
    }
  }

  /** Below a rendered root, every folder of the layout lies under the root followed by a separator. */
  lemma {:induction false} LayoutStartsWithRoot(s: seq<string>, absolute: bool)
    requires s != [] && Clean(s, absolute)
    ensures var root := Render(s, absolute, false); var d := Layout(root);
      && StartsWith(d.app.src, root + [Sep])
      && StartsWith(d.app.api, root + [Sep])
      && StartsWith(d.app.components, root + [Sep])
      && StartsWith(d.app.extensions, root + [Sep])
      && StartsWith(d.app.policies, root + [Sep])
      && StartsWith(d.app.middlewares, root + [Sep])
      && StartsWith(d.app.config, root + [Sep])
      && StartsWith(d.distRoot, root + [Sep])
      && StartsWith(d.staticPublic, root + [Sep])
  {
    var root := Render(s, absolute, false);
    var s' := s + ["src"];
    LayoutNamesPlain();
    RenderedChild(s, absolute, "src");
    RenderedChild(s, absolute, "config");
    RenderedChild(s, absolute, "dist");
    RenderedChild(s, absolute, "public");
    JoinPlainRendered(s, absolute, "src");
    JoinPlainRendered(s, absolute, "config");
    JoinPlainRendered(s, absolute, "dist");
    JoinPlainRendered(s, absolute, "public");
    var src := Render(s', absolute, false);
    assert src == root + [Sep] + "src";
    SrcChildUnderRoot(s, absolute, "api");
    SrcChildUnderRoot(s, absolute, "components");
    SrcChildUnderRoot(s, absolute, "extensions");
    SrcChildUnderRoot(s, absolute, "policies");
    SrcChildUnderRoot(s, absolute, "middlewares");
  }

  lemma {:induction false} SrcChildUnderRoot(s: seq<string>, absolute: bool, name: string)
    requires s != [] && Clean(s, absolute) && IsPlain(name)
    ensures var root := Render(s, absolute, false);
      StartsWith(Join(Join(root, "src"), name), root + [Sep])
  {
    var root := Render(s, absolute, false);
    LayoutNamesPlain();
    RenderedChild(s, absolute, "src");
    JoinPlainRendered(s, absolute, "src");
    var s' := s + ["src"];
    RenderedChild(s', absolute, name);
    JoinPlainRendered(s', absolute, name);
    assert Join(Join(root, "src"), name) == root + [Sep] + "src" + [Sep] + name;
  }

  /**
   * Every `app` folder starts with the root string, unless the root normalises
   * to `.` (then `src` comes out as the bare `src`).
   */
  lemma {:induction false} AppFoldersStartWithRoot(rootPath: string)
    ensures var d := BuildStrapiDirectoriesFromRootPath(rootPath);
      d.app.root != "." ==>
        && StartsWith(d.app.src, d.app.root)
        && StartsWith(d.app.api, d.app.root)
        && StartsWith(d.app.components, d.app.root)
        && StartsWith(d.app.extensions, d.app.root)
        && StartsWith(d.app.policies, d.app.root)
        && StartsWith(d.app.middlewares, d.app.root)
        && StartsWith(d.app.config, d.app.root)
  {
    var root := NormalizeWithoutTrailingSeparator(rootPath);
    var d := Layout(root);
    if root != "." && root != "" {
      var absolute := rootPath[0] == Sep;
      var s := Resolve([], Split(rootPath), absolute);
      assert s != [] && Clean(s, absolute) && root == Render(s, absolute, false) by {
        TrimmedShape(rootPath);
      }
      LayoutStartsWithRoot(s, absolute);
      UnderStartsWith(d.app.src, root);
      UnderStartsWith(d.app.api, root);
      UnderStartsWith(d.app.components, root);
      UnderStartsWith(d.app.extensions, root);
      UnderStartsWith(d.app.policies, root);
      UnderStartsWith(d.app.middlewares, root);
      UnderStartsWith(d.app.config, root);
    }
  }

  /** A path under `root/` starts with `root`. */
  lemma UnderStartsWith(x: string, root: string)
    requires StartsWith(x, root + [Sep])
    ensures StartsWith(x, root)
  {
    assert root <= root + [Sep];
  }
}
