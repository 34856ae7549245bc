/**
 * `deleteUnnecessaryGeneratedInterfaces`: the collector that walks the project
 * from its root and deletes every `.ts` file whose first line is the
 * generator's header comment, except the files it was asked to keep.
 *
 * The walk follows the code: excluded folders and folders whose name starts
 * with `.` are not entered; in a listing, a subdirectory is searched first,
 * then a kept file ends the walk of that listing (the remaining entries are
 * neither searched nor deleted), then a `.ts` file is read and deleted when
 * its first line is the header. The header comparison is a parameter.
 */
module Cleanup {
  import opened Results
  import opened Paths
  import opened FileSystem
  import opened Strapi

  /** What the collector is given: the exact paths it must not enter, the files to keep, the header test. */
  datatype Sweep = Sweep(excluded: seq<string>, keep: seq<string>, isHeader: string -> bool)

  /** The six folders the collector never enters, in the order the code lists them. */
  function ExcludedPaths(d: StrapiDirectories): seq<string> {
    var root := d.app.root;
    var src := d.app.src;
    [Join(root, "node_modules"), Join(root, "public"), Join(root, "database"), Join(root, "dist"),
     Join(src, "plugins"), Join(src, "admin")]
  }

  /** A folder the collector returns from at once: its resolved path is excluded, or its name starts with `.`. */
  predicate Skipped(ctx: Sweep, dir: string) {
    ResolvedPath(dir) in ctx.excluded || StartsWith(Basename(dir), ".")
  }

  /** `content.split('\n')[0]`: everything before the first line feed. */
  function FirstLine(s: string): (r: string)
    ensures r <= s
    ensures '\n' !in r
    ensures r == s || s[|r|] == '\n'
    decreases |s|
  {
    if s == [] || s[0] == '\n' then [] else [s[0]] + FirstLine(s[1..])
  }

  /** A file the collector deletes when it reaches it: a `.ts` name, the header first line, not kept. */
  predicate Deletable(ctx: Sweep, path: string, e: Entry) {
    && e.node.File?
    && path !in ctx.keep
    && Extname(e.name) == ".ts"
    && ctx.isHeader(FirstLine(e.node.content))
  }

  // ---------------------------------------------------------------------------
  // The walk
  // ---------------------------------------------------------------------------

  /** `searchFiles(dir)` on a directory whose listing is `es`. */
  function Visit(ctx: Sweep, dir: string, es: seq<Entry>): seq<Entry>
    decreases es, 1
  {
    if Skipped(ctx, dir) then es else SearchEntries(ctx, dir, es)
  }

  /** The `for` loop of `searchFiles` over the listing `es` of `dir`. */
  function SearchEntries(ctx: Sweep, dir: string, es: seq<Entry>): seq<Entry>
    decreases es, 0
  {
    if es == [] then []
    else
      var e := es[0];
      var path := Join(dir, e.name);
      match e.node
      case Dir(sub) => [Entry(e.name, Dir(Visit(ctx, path, sub)))] + SearchEntries(ctx, dir, es[1..])
      case File(content) =>
        if path in ctx.keep then es
        else if Extname(e.name) == ".ts" && ctx.isHeader(FirstLine(content)) then SearchEntries(ctx, dir, es[1..])
        else [e] + SearchEntries(ctx, dir, es[1..])
  }

  /** The collector's inputs for a layout: its exclusions, the keep list (`[]` when absent), the header test. */
  function Context(d: StrapiDirectories, isHeader: string -> bool, filesToKeep: Option<seq<string>>): Sweep {
    Sweep(ExcludedPaths(d), if filesToKeep.Some? then filesToKeep.value else [], isHeader)
  }

  /**
   * The collector started from `app.root`. A root that is not skipped makes
   * `readdirSync` fail when it is not a directory, or when it is the empty
   * path `""` (the trimmed form of `/`), which `readdirSync` does not read as
   * any folder; the tree is then unchanged.
   */
  function DeleteUnnecessaryGeneratedInterfaces(
    fs: Node, d: StrapiDirectories, isHeader: string -> bool, filesToKeep: Option<seq<string>>)
    : (r: (Node, Outcome<IoError>))
    ensures var ctx := Context(d, isHeader, filesToKeep);
      && (Skipped(ctx, d.app.root) ==> r == (fs, Pass))
      && (r.1.Fail? <==> !Skipped(ctx, d.app.root) && (d.app.root == "" || !IsDir(fs, Components(d.app.root))))
    ensures r.1.Fail? ==> r.0 == fs
    ensures var c := Components(d.app.root);
      forall q :: !(q <= c) && !(c <= q) ==> Get(r.0, q) == Get(fs, q)
    ensures var ctx := Context(d, isHeader, filesToKeep);
      var c := Components(d.app.root);
      r.1.Pass? && !Skipped(ctx, d.app.root) ==>
        && IsDir(fs, c) && IsDir(r.0, c)
        && Pruned(ctx, d.app.root, Get(fs, c).value.entries, Get(r.0, c).value.entries)
    ensures var ctx := Context(d, isHeader, filesToKeep);
      var c := Components(d.app.root);
      (&& r.1.Pass? && !Skipped(ctx, d.app.root)
       && KeepFree(ctx, d.app.root, Get(fs, c).value.entries))
      ==> Swept(ctx, d.app.root, Get(r.0, c).value.entries)
  {
    var ctx := Context(d, isHeader, filesToKeep);
    var root := d.app.root;
    var c := Components(root);
    if Skipped(ctx, root) then (fs, Pass)
    else if root == "" then (fs, Fail(NoSuchEntry(root)))
    else
      match Get(fs, c)
      case None => (fs, Fail(NoSuchEntry(root)))
      case Some(File(_)) => (fs, Fail(NotADirectory(root)))
      case Some(Dir(es)) =>
        ExistingCanUpdate(fs, c);
        var swept := SearchEntries(ctx, root, es);
        var fs' := Update(fs, c, Dir(swept));
        GetUpdate(fs, c, Dir(swept));
        SearchEntriesPruned(ctx, root, es);
        SweepsWhenKeepFree(ctx, root, es);
        assert forall q :: !(q <= c) && !(c <= q) ==> Get(fs', q) == Get(fs, q) by {
          forall q | !(q <= c) && !(c <= q) ensures Get(fs', q) == Get(fs, q) {
            GetUpdateApart(fs, c, Dir(swept), q);
          }
        }
        (fs', Pass)
  }

  // ---------------------------------------------------------------------------
  // What the walk may remove: a reference relation
  // ---------------------------------------------------------------------------

  /**
   * `after` is `before` with some deletable files dropped from the listing of
   * `dir` and, below it, from every folder that is not skipped; nothing else
   * differs, and the order of what is left is kept.
   */
  predicate Pruned(ctx: Sweep, dir: string, before: seq<Entry>, after: seq<Entry>)
    decreases before
  {
    if before == [] then after == []
    else
      var e := before[0];
      var path := Join(dir, e.name);
      || (after != [] && after[0].name == e.name
          && NodePruned(ctx, path, e.node, after[0].node)
          && Pruned(ctx, dir, before[1..], after[1..]))
      || (Deletable(ctx, path, e) && Pruned(ctx, dir, before[1..], after))
  }

  /** A file is kept as it is; a directory stays a directory and is pruned unless it is skipped. */
  predicate NodePruned(ctx: Sweep, path: string, before: Node, after: Node)
    decreases before
  {
    match before
    case File(_) => after == before
    case Dir(sub) =>
      && after.Dir?
      && (if Skipped(ctx, path) then after == before else Pruned(ctx, path, sub, after.entries))
  }

  lemma {:induction false} PrunedRefl(ctx: Sweep, dir: string, es: seq<Entry>)
    ensures Pruned(ctx, dir, es, es)
    decreases es, 0
  {
    if es != [] {
      NodePrunedRefl(ctx, Join(dir, es[0].name), es[0].node);
      PrunedRefl(ctx, dir, es[1..]);
    }
  }

  lemma {:induction false} NodePrunedRefl(ctx: Sweep, path: string, n: Node)
    ensures NodePruned(ctx, path, n, n)
    decreases n
  {
    if n.Dir? && !Skipped(ctx, path) {
      PrunedRefl(ctx, path, n.entries);
    }
  }

  /** Only deletable files go: no directory, no non-`.ts` file, no kept file, nothing under a skipped folder. */
  lemma {:induction false} SearchEntriesPruned(ctx: Sweep, dir: string, es: seq<Entry>)
    ensures Pruned(ctx, dir, es, SearchEntries(ctx, dir, es))
    decreases es, 0
  {
    if es != [] {
      var e := es[0];
      var path := Join(dir, e.name);
      var r := SearchEntries(ctx, dir, es);
      match e.node
      case Dir(sub) =>
        VisitPruned(ctx, path, sub);
        SearchEntriesPruned(ctx, dir, es[1..]);
        assert r[0] == Entry(e.name, Dir(Visit(ctx, path, sub)));
        assert r[1..] == SearchEntries(ctx, dir, es[1..]);
      case File(content) =>
        if path in ctx.keep {
          PrunedRefl(ctx, dir, es);
        } else {
          SearchEntriesPruned(ctx, dir, es[1..]);
          if !(Extname(e.name) == ".ts" && ctx.isHeader(FirstLine(content))) {
            assert r[1..] == SearchEntries(ctx, dir, es[1..]);
          }
        }
    }
  }

  lemma {:induction false} VisitPruned(ctx: Sweep, dir: string, es: seq<Entry>)
    ensures NodePruned(ctx, dir, Dir(es), Dir(Visit(ctx, dir, es)))
    decreases es, 1
  {
    if !Skipped(ctx, dir) {
      SearchEntriesPruned(ctx, dir, es);
    }
  }

  // ---------------------------------------------------------------------------
  // The early return on a kept file
  // ---------------------------------------------------------------------------

  /** A file of `dir` whose path is in the keep list. */
  predicate KeptFile(ctx: Sweep, dir: string, e: Entry) {
    e.node.File? && Join(dir, e.name) in ctx.keep
  }

  /** What the walk leaves in place of an entry that is not a kept file. */
  function Emitted(ctx: Sweep, dir: string, e: Entry): seq<Entry> {
    var path := Join(dir, e.name);
    match e.node
    case Dir(sub) => [Entry(e.name, Dir(Visit(ctx, path, sub)))]
    case File(content) =>
      if Extname(e.name) == ".ts" && ctx.isHeader(FirstLine(content)) then [] else [e]
  }

  /** One step of the walk past an entry that is not a kept file. */
  lemma SearchEntriesStep(ctx: Sweep, dir: string, es: seq<Entry>)
    requires es != [] && !KeptFile(ctx, dir, es[0])
    ensures SearchEntries(ctx, dir, es) == Emitted(ctx, dir, es[0]) + SearchEntries(ctx, dir, es[1..])
  {
  }

  /** Regrouping the walk's output around a kept file. */
  lemma GlueKept(x: seq<Entry>, y: seq<Entry>, k: Entry, post: seq<Entry>)
    ensures x + (y + [k] + post) == (x + y) + [k] + post
  {
  }

  /** A kept file ends the listing's walk: it and every entry after it come through untouched. */
  lemma {:induction false} KeptFileEndsListing(ctx: Sweep, dir: string, pre: seq<Entry>, k: Entry, post: seq<Entry>)
    requires KeptFile(ctx, dir, k)
    ensures SearchEntries(ctx, dir, pre + [k] + post) == SearchEntries(ctx, dir, pre) + [k] + post
      || exists i :: 0 <= i < |pre| && KeptFile(ctx, dir, pre[i])
    decreases |pre|
  {
    var es := pre + [k] + post;
    if pre == [] {
      assert es[0] == k && es == [k] + post;
    } else if KeptFile(ctx, dir, pre[0]) {
      assert 0 < |pre|;
    } else {
      var e := pre[0];
      var tail := pre[1..];
      assert es[0] == e && es[1..] == tail + [k] + post;
      KeptFileEndsListing(ctx, dir, tail, k, post);
      if exists i :: 0 <= i < |tail| && KeptFile(ctx, dir, tail[i]) {
        var i :| 0 <= i < |tail| && KeptFile(ctx, dir, tail[i]);
        assert pre[i + 1] == tail[i];
      } else {
        SearchEntriesStep(ctx, dir, es);
        SearchEntriesStep(ctx, dir, pre);
        GlueKept(Emitted(ctx, dir, e), SearchEntries(ctx, dir, tail), k, post);
      }
    }
  }

  // ---------------------------------------------------------------------------
  // Completeness: without kept files nothing stale survives
  // ---------------------------------------------------------------------------

  /** No file of the listing, nor of any folder the walk enters below it, is in the keep list. */
  predicate KeepFree(ctx: Sweep, dir: string, es: seq<Entry>)
    decreases es
  {
    es == [] ||
      (var e := es[0];
       var path := Join(dir, e.name);
       && (match e.node
           case File(_) => path !in ctx.keep
           case Dir(sub) => Skipped(ctx, path) || KeepFree(ctx, path, sub))
       && KeepFree(ctx, dir, es[1..]))
  }

  /** No deletable file is left in the listing, nor in any folder the walk enters below it. */
  predicate Swept(ctx: Sweep, dir: string, es: seq<Entry>)
    decreases es
  {
    es == [] ||
      (var e := es[0];
       var path := Join(dir, e.name);
       && (match e.node
           case File(_) => !Deletable(ctx, path, e)
           case Dir(sub) => Skipped(ctx, path) || Swept(ctx, path, sub))
       && Swept(ctx, dir, es[1..]))
  }

  /** The walk of a listing sweeps it whenever no folder it enters holds a kept file. */
  lemma SweepsWhenKeepFree(ctx: Sweep, dir: string, es: seq<Entry>)
    ensures KeepFree(ctx, dir, es) ==> Swept(ctx, dir, SearchEntries(ctx, dir, es))
  {
    if KeepFree(ctx, dir, es) {
      SearchEntriesSweeps(ctx, dir, es);
    }
  }

  lemma {:induction false} SearchEntriesSweeps(ctx: Sweep, dir: string, es: seq<Entry>)
    requires KeepFree(ctx, dir, es)
    ensures Swept(ctx, dir, SearchEntries(ctx, dir, es))
    decreases es
  {
    if es != [] {
      var e := es[0];
      var path := Join(dir, e.name);
      var r := SearchEntries(ctx, dir, es);
      SearchEntriesSweeps(ctx, dir, es[1..]);
      match e.node
      case Dir(sub) =>
        if !Skipped(ctx, path) {
          SearchEntriesSweeps(ctx, path, sub);
        }
        assert r[0] == Entry(e.name, Dir(Visit(ctx, path, sub)));
        assert r[1..] == SearchEntries(ctx, dir, es[1..]);
      case File(content) =>
        if !(Extname(e.name) == ".ts" && ctx.isHeader(FirstLine(content))) {
          assert r[1..] == SearchEntries(ctx, dir, es[1..]);
        }
    }
  }

  // ---------------------------------------------------------------------------
  // Idempotence
  // ---------------------------------------------------------------------------

  /** A second walk over the result removes nothing more. */
  lemma {:induction false} SearchEntriesIdempotent(ctx: Sweep, dir: string, es: seq<Entry>)
    ensures SearchEntries(ctx, dir, SearchEntries(ctx, dir, es)) == SearchEntries(ctx, dir, es)
    decreases es, 0
  {
    if es != [] {
      var e := es[0];
      var path := Join(dir, e.name);
      var r := SearchEntries(ctx, dir, es);
      match e.node
      case Dir(sub) =>
        VisitIdempotent(ctx, path, sub);
        SearchEntriesIdempotent(ctx, dir, es[1..]);
        assert r == [Entry(e.name, Dir(Visit(ctx, path, sub)))] + SearchEntries(ctx, dir, es[1..]);
        assert r[0] == Entry(e.name, Dir(Visit(ctx, path, sub)));
        assert r[1..] == SearchEntries(ctx, dir, es[1..]);
      case File(content) =>
        if path !in ctx.keep {
          SearchEntriesIdempotent(ctx, dir, es[1..]);
          if !(Extname(e.name) == ".ts" && ctx.isHeader(FirstLine(content))) {
            assert r[0] == e;
            assert r[1..] == SearchEntries(ctx, dir, es[1..]);
          }
        }
    }
  }

  lemma {:induction false} VisitIdempotent(ctx: Sweep, dir: string, es: seq<Entry>)
    ensures Visit(ctx, dir, Visit(ctx, dir, es)) == Visit(ctx, dir, es)
    decreases es, 1
  {
    if !Skipped(ctx, dir) {
      SearchEntriesIdempotent(ctx, dir, es);
    }
  }
}
