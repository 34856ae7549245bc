/**
 * The barrel pass: `generateIndexFilesRecursively`, `generateIndexFilesForPath`
 * and `generateIndexFile`. Each output folder gets an `index.ts` that
 * re-exports its TypeScript files and every subfolder that has an `index.ts`
 * of its own; subfolders are processed before their parent, so a parent sees
 * the indexes its children have just received.
 */
module IndexFiles {
  import opened Results
  import opened Paths
  import opened FileSystem
  import Destinations

  const IndexFileName: string := "index.ts"

  /** The re-export statement for the module `m` of the same folder. */
  function ExportStatement(m: string): string {
    "export * from './" + m + "';"
  }

  /** A file the index re-exports: not `index.ts`, a `.ts` or `.tsx` name, not a `.d.ts` declaration file. */
  predicate ExportableFile(name: string) {
    && name != IndexFileName
    && (EndsWith(name, ".ts") || EndsWith(name, ".tsx"))
    && !EndsWith(name, ".d.ts")
  }

  /** `path.basename(file, path.extname(file))`: the name without its extension. */
  function ModuleName(name: string): string {
    var ext := Extname(name);
    if EndsWith(name, ext) then name[..|name| - |ext|] else name
  }

  /** The module name and the extension put back together give the file name. */
  lemma {:induction false} ModuleNameExtname(name: string)
    requires Sep !in name
    ensures ModuleName(name) + Extname(name) == name
  {
    BasenameOfName(name);
    var ext := Extname(name);
    var d := LastIndexOf(name, '.');
    if !(d <= 0 || name == "..") {
      assert ext == name[d..];
    }
    assert EndsWith(name, ext);
    assert name[..|name| - |ext|] + name[|name| - |ext|..] == name;
  }

  /** An extension as `extname` reports it: a dot followed by at least one character and no other dot. */
  predicate DottedExtension(ext: string) {
    |ext| >= 2 && ext[0] == '.' && '.' !in ext[1..]
  }

  /** `.ts` and `.tsx` are extensions in the sense of `extname`. */
  lemma TsExtensionsDotted()
    ensures DottedExtension(".ts") && DottedExtension(".tsx")
  {
    assert ".ts"[1..] == "ts";
    assert ".tsx"[1..] == "tsx";
  }

  /** A name ending with a dotted extension that has no other dot has that extension. */
  lemma {:induction false} ExtnameOfSuffix(name: string, ext: string)
    requires Sep !in name
    requires DottedExtension(ext)
    requires EndsWith(name, ext) && |name| > |ext|
    ensures Extname(name) == ext
  {
    BasenameOfName(name);
    var k := |name| - |ext|;
    var d := LastIndexOf(name, '.');
    assert name[k] == ext[0];
    assert d >= k;
    forall j | k < j < |name| ensures name[j] != '.' {
      assert name[j] == ext[1..][j - k - 1];
    }
    assert d == k;
    assert name != ".." by {
      assert name[|name| - 1] == ext[1..][|ext| - 2];
    }
  }

  /** An exported source file is re-exported under its name without the `.ts` or `.tsx` suffix. */
  lemma {:induction false} ExportedModuleName(name: string)
    requires Sep !in name && ExportableFile(name)
    ensures EndsWith(name, ".ts") && |name| > 3 ==> ModuleName(name) + ".ts" == name
    ensures EndsWith(name, ".tsx") && |name| > 4 ==> ModuleName(name) + ".tsx" == name
  {
    ModuleNameExtname(name);
    TsExtensionsDotted();
    if EndsWith(name, ".ts") && |name| > 3 {
      ExtnameOfSuffix(name, ".ts");
    }
    if EndsWith(name, ".tsx") && |name| > 4 {
      ExtnameOfSuffix(name, ".tsx");
    }
  }

  // ---------------------------------------------------------------------------
  // One folder's index
  // ---------------------------------------------------------------------------

  /**
   * The line `generateIndexFile` pushes for one entry of the listing: a folder
   * is re-exported when it contains an `index.ts`, a file when it is exportable.
   */
  function ExportLine(e: Entry): Option<string> {
    match e.node
    case Dir(_) =>
      if Child(e.node, IndexFileName).Some? then Some(ExportStatement(e.name)) else None
    case File(_) =>
      if ExportableFile(e.name) then Some(ExportStatement(ModuleName(e.name))) else None
  }

  /** The export lines of a listing, in listing order. */
  function ExportLines(es: seq<Entry>): (r: seq<string>)
    ensures |r| <= |es|
    decreases |es|
  {
    if es == [] then [] else LinesOf(es[0]) + ExportLines(es[1..])
  }

  /** The export line of one entry as a list of zero or one lines. */
  function LinesOf(e: Entry): seq<string> {
    if ExportLine(e).Some? then [ExportLine(e).value] else []
  }

  /** Lines follow the listing: the lines of two listings one after the other are the two lines in turn. */
  lemma {:induction false} ExportLinesAppend(a: seq<Entry>, b: seq<Entry>)
    ensures ExportLines(a + b) == ExportLines(a) + ExportLines(b)
    decreases |a|
  {
    if a != [] {
      assert (a + b)[0] == a[0] && (a + b)[1..] == a[1..] + b;
      ExportLinesAppend(a[1..], b);
      ConcatAssoc(LinesOf(a[0]), ExportLines(a[1..]), ExportLines(b));
    } else {
      assert a + b == b;
    }
  }

  /** Regrouping lines. */
  lemma ConcatAssoc(x: seq<string>, y: seq<string>, z: seq<string>)
    ensures x + (y + z) == (x + y) + z
  {
  }

  /** A listing has no export line exactly when none of its entries has one. */
  lemma {:induction false} NoExportLines(es: seq<Entry>)
    ensures ExportLines(es) == [] <==> forall i :: 0 <= i < |es| ==> ExportLine(es[i]).None?
    decreases |es|
  {
    if es != [] {
      NoExportLines(es[1..]);
      assert forall i :: 1 <= i < |es| ==> es[i] == es[1..][i - 1];
    }
  }

  /** Every entry that has a line contributes it at its place in the listing. */
  lemma {:induction false} ExportLineAt(es: seq<Entry>, i: nat)
    requires i < |es| && ExportLine(es[i]).Some?
    ensures ExportLines(es) == ExportLines(es[..i]) + [ExportLine(es[i]).value] + ExportLines(es[i + 1..])
  {
    var a := es[..i];
    var b := es[i + 1..];
    assert es == a + [es[i]] + b;
    ExportLinesAppend(a + [es[i]], b);
    ExportLinesAppend(a, [es[i]]);
    ExportLinesSingle(es[i]);
  }

  /** The export lines of a one-entry listing. */
  lemma ExportLinesSingle(e: Entry)
    ensures ExportLines([e]) == LinesOf(e)
  {
    assert [e][1..] == [];
  }

  /** JavaScript's `lines.join('\n')`. */
  function JoinLines(lines: seq<string>): string
    decreases |lines|
  {
    if lines == [] then ""
    else if |lines| == 1 then lines[0]
    else lines[0] + "\n" + JoinLines(lines[1..])
  }

  /** The content of a generated index: the lines joined by line feeds, plus a final line feed. */
  function IndexContent(lines: seq<string>): string {
    JoinLines(lines) + "\n"
  }

  /** Every line followed by its own line feed: the reference shape of a generated index. */
  function Terminated(lines: seq<string>): string
    decreases |lines|
  {
    if lines == [] then "" else lines[0] + "\n" + Terminated(lines[1..])
  }

  /** A generated index is its lines, each ended by a line feed. */
  lemma {:induction false} IndexContentTerminated(lines: seq<string>)
    requires lines != []
    ensures IndexContent(lines) == Terminated(lines)
    decreases |lines|
  {
    if |lines| > 1 {
      IndexContentTerminated(lines[1..]);
      calc {
        IndexContent(lines);
        (lines[0] + "\n" + JoinLines(lines[1..])) + "\n";
        lines[0] + "\n" + (JoinLines(lines[1..]) + "\n");
        lines[0] + "\n" + Terminated(lines[1..]);
      }
    }
  }

  /**
   * Writing the index of a listing: nothing when there are no lines; an
   * `index.ts` that is a folder makes the write fail; otherwise `index.ts` is
   * (over)written, or appended to the listing when it is new.
   */
  function WriteIndex(es: seq<Entry>, path: string): (r: (seq<Entry>, Outcome<IoError>))
    ensures ExportLines(es) == [] ==> r == (es, Pass)
    ensures r.1.Fail? <==>
      ExportLines(es) != [] && Child(Dir(es), IndexFileName).Some? && Child(Dir(es), IndexFileName).value.Dir?
    ensures r.1.Fail? ==> r.0 == es
    ensures r.1.Pass? && ExportLines(es) != [] ==>
      Child(Dir(r.0), IndexFileName) == Some(File(IndexContent(ExportLines(es))))
    ensures forall name :: name != IndexFileName ==> Child(Dir(r.0), name) == Child(Dir(es), name)
  {
    var lines := ExportLines(es);
    if lines == [] then (es, Pass)
    else
      var existing := Child(Dir(es), IndexFileName);
      if existing.Some? && existing.value.Dir? then (es, Fail(IsADirectory(Join(path, IndexFileName))))
      else
        var content := File(IndexContent(lines));
        ChildSetChildSame(es, IndexFileName, content);
        assert forall name :: name != IndexFileName ==>
          Child(Dir(SetChild(es, IndexFileName, content)), name) == Child(Dir(es), name) by {
          forall name | name != IndexFileName
            ensures Child(Dir(SetChild(es, IndexFileName, content)), name) == Child(Dir(es), name) {
            ChildSetChildOther(es, IndexFileName, content, name);
          }
        }
        (SetChild(es, IndexFileName, content), Pass)
  }

  /** Writing a file called `index.ts` over a file (or next to the listing) adds no export line. */
  lemma {:induction false} ExportLinesSetIndex(es: seq<Entry>, content: string)
    requires !(Child(Dir(es), IndexFileName).Some? && Child(Dir(es), IndexFileName).value.Dir?)
    ensures ExportLines(SetChild(es, IndexFileName, File(content))) == ExportLines(es)
  {
    var i := Find(es, IndexFileName);
    var e := Entry(IndexFileName, File(content));
    assert ExportLine(e) == None;
    if i < |es| {
      assert ExportLine(es[i]) == None;
      assert es == es[..i] + [es[i]] + es[i + 1..];
      assert es[i := e] == es[..i] + [e] + es[i + 1..];
      ExportLinesAppend(es[..i] + [es[i]], es[i + 1..]);
      ExportLinesAppend(es[..i], [es[i]]);
      ExportLinesAppend(es[..i] + [e], es[i + 1..]);
      ExportLinesAppend(es[..i], [e]);
    } else {
      ExportLinesAppend(es, [e]);
    }
  }

  // ---------------------------------------------------------------------------
  // The post-order pass
  // ---------------------------------------------------------------------------

  /** `generateIndexFilesForPath` on a folder whose listing is `es`: the subfolders first, then the folder's own index. */
  function IndexListing(es: seq<Entry>, path: string): (seq<Entry>, Outcome<IoError>)
    decreases es, 1
  {
    var kids := IndexChildren(es, path);
    if kids.1.Fail? then kids else WriteIndex(kids.0, path)
  }

  /** The `forEach` over the listing: every subfolder is processed in turn; the first failure ends the pass. */
  function IndexChildren(es: seq<Entry>, path: string): (r: (seq<Entry>, Outcome<IoError>))
    ensures |r.0| == |es|
    ensures forall i :: 0 <= i < |es| ==>
      && r.0[i].name == es[i].name
      && (es[i].node.File? ==> r.0[i] == es[i])
      && (es[i].node.Dir? ==> r.0[i].node.Dir?)
    decreases es, 0
  {
    if es == [] then ([], Pass)
    else
      var e := es[0];
      match e.node
      case File(_) =>
        var rest := IndexChildren(es[1..], path);
        ([e] + rest.0, rest.1)
      case Dir(sub) =>
        var c := IndexListing(sub, Join(path, e.name));
        if c.1.Fail? then ([Entry(e.name, Dir(c.0))] + es[1..], c.1)
        else
          var rest := IndexChildren(es[1..], path);
          ([Entry(e.name, Dir(c.0))] + rest.0, rest.1)
  }

  /**
   * A listing every folder of which, itself included, is indexed: it has an
   * `index.ts` holding exactly its export lines whenever it has any.
   */
  predicate Indexed(es: seq<Entry>)
    decreases es, 1
  {
    && SubfoldersIndexed(es)
    && (ExportLines(es) == [] || Child(Dir(es), IndexFileName) == Some(File(IndexContent(ExportLines(es)))))
  }

  /** Every subfolder of the listing is indexed. */
  predicate SubfoldersIndexed(es: seq<Entry>)
    decreases es, 0
  {
    forall i :: 0 <= i < |es| ==> es[i].node.Dir? ==> Indexed(es[i].node.entries)
  }

  /** Two listings with the same names in the same order find the same entry for every name. */
  lemma {:induction false} FindSameNames(a: seq<Entry>, b: seq<Entry>, name: string)
    requires |a| == |b| && forall i :: 0 <= i < |a| ==> a[i].name == b[i].name
    ensures Find(a, name) == Find(b, name)
    decreases |a|
  {
    if a != [] && a[0].name != name {
      FindSameNames(a[1..], b[1..], name);
    }
  }

  /** After a folder's pass its `index.ts` exists exactly when it existed before or the folder has export lines. */
  lemma {:induction false} IndexListingKeepsOrMakesIndex(es: seq<Entry>, path: string)
    ensures var r := IndexListing(es, path);
      r.1.Pass? ==>
        (Child(Dir(r.0), IndexFileName).Some? <==> Child(Dir(es), IndexFileName).Some? || ExportLines(r.0) != [])
  {
    var kids := IndexChildren(es, path);
    FindSameNames(kids.0, es, IndexFileName);
    var r := IndexListing(es, path);
    if r.1.Pass? && ExportLines(kids.0) != [] {
      ExportLinesSetIndex(kids.0, IndexContent(ExportLines(kids.0)));
    }
  }

  /** A parent re-exports a subfolder exactly when the subfolder's own pass left it with an `index.ts`. */
  lemma {:induction false} ParentExportsChild(name: string, sub: seq<Entry>, path: string)
    ensures var c := IndexListing(sub, path);
      c.1.Pass? ==>
        (ExportLine(Entry(name, Dir(c.0))).Some? <==> Child(Dir(sub), IndexFileName).Some? || ExportLines(c.0) != [])
  {
    IndexListingKeepsOrMakesIndex(sub, path);
  }

  /** A pass that succeeds leaves every folder of the listing indexed. */
  lemma {:induction false} IndexListingIndexed(es: seq<Entry>, path: string)
    ensures var r := IndexListing(es, path); r.1.Pass? ==> Indexed(r.0)
    decreases es, 1
  {
    var kids := IndexChildren(es, path);
    IndexChildrenIndexed(es, path);
    var r := IndexListing(es, path);
    if r.1.Pass? {
      var lines := ExportLines(kids.0);
      if lines != [] {
        var content := File(IndexContent(lines));
        ExportLinesSetIndex(kids.0, IndexContent(lines));
        var i := Find(kids.0, IndexFileName);
        forall j | 0 <= j < |r.0| && r.0[j].node.Dir? ensures Indexed(r.0[j].node.entries) {
          if i < |kids.0| {
            assert j != i;
            assert r.0[j] == kids.0[j];
          } else {
            assert j < |kids.0|;
            assert r.0[j] == kids.0[j];
          }
        }
      }
    }
  }

  /** A children pass that succeeds leaves every subfolder indexed. */
  lemma {:induction false} IndexChildrenIndexed(es: seq<Entry>, path: string)
    ensures var r := IndexChildren(es, path); r.1.Pass? ==> SubfoldersIndexed(r.0)
    decreases es, 0
  {
    var r := IndexChildren(es, path);
    if es != [] && r.1.Pass? {
      var e := es[0];
      var rest := IndexChildren(es[1..], path);
      IndexChildrenIndexed(es[1..], path);
      assert r.0[1..] == rest.0;
      match e.node {
        case File(_) =>
        case Dir(sub) =>
          IndexListingIndexed(sub, Join(path, e.name));
      }
      forall j | 0 <= j < |r.0| && r.0[j].node.Dir? ensures Indexed(r.0[j].node.entries) {
        if j > 0 {
          assert r.0[j] == rest.0[j - 1];
        }
      }
    }
  }

  /** Replacing an entry by itself changes nothing. */
  lemma {:induction false} SetChildExisting(es: seq<Entry>, name: string, c: Node)
    requires Child(Dir(es), name) == Some(c)
    ensures SetChild(es, name, c) == es
  {
    var i := Find(es, name);
    assert es[i] == Entry(name, c);
  }

  /** An indexed listing is a fixed point of the pass. */
  lemma {:induction false} IndexedFixed(es: seq<Entry>, path: string)
    requires Indexed(es)
    ensures IndexListing(es, path) == (es, Pass)
    decreases es, 1
  {
    SubfoldersFixed(es, path);
    var lines := ExportLines(es);
    if lines != [] {
      SetChildExisting(es, IndexFileName, File(IndexContent(lines)));
    }
  }

  /** The children pass leaves a listing whose subfolders are indexed as it is. */
  lemma {:induction false} SubfoldersFixed(es: seq<Entry>, path: string)
    requires SubfoldersIndexed(es)
    ensures IndexChildren(es, path) == (es, Pass)
    decreases es, 0
  {
    if es != [] {
      var e := es[0];
      assert SubfoldersIndexed(es[1..]) by {
        forall j | 0 <= j < |es[1..]| && es[1..][j].node.Dir? ensures Indexed(es[1..][j].node.entries) {
          assert es[1..][j] == es[j + 1];
        }
      }
      SubfoldersFixed(es[1..], path);
      match e.node {
        case File(_) =>
        case Dir(sub) =>
          assert Indexed(es[0].node.entries);
          IndexedFixed(sub, Join(path, e.name));
      }
      assert [e] + es[1..] == es;
    }
  }

  /** Running the pass a second time changes nothing. */
  lemma {:induction false} IndexListingIdempotent(es: seq<Entry>, path: string)
    ensures var r := IndexListing(es, path);
      r.1.Pass? ==> IndexListing(r.0, path) == (r.0, Pass)
  {
    var r := IndexListing(es, path);
    IndexListingIndexed(es, path);
    if r.1.Pass? {
      IndexedFixed(r.0, path);
    }
  }

  // ---------------------------------------------------------------------------
  // What the pass writes, and when it fails
  // ---------------------------------------------------------------------------

  /**
   * `after` is `before` with only `index.ts` files written: the same names in
   * the same order, every other file unchanged, every folder related in turn,
   * and at most one new entry, at the end, a file called `index.ts`.
   */
  predicate OnlyIndexesWritten(before: seq<Entry>, after: seq<Entry>)
    decreases before
  {
    && |before| <= |after| <= |before| + 1
    && (|after| == |before| + 1 ==> after[|before|].name == IndexFileName && after[|before|].node.File?)
    && forall i :: 0 <= i < |before| ==>
      && after[i].name == before[i].name
      && match before[i].node
         case File(_) => after[i].node == before[i].node || (before[i].name == IndexFileName && after[i].node.File?)
         case Dir(sub) => after[i].node.Dir? && OnlyIndexesWritten(sub, after[i].node.entries)
  }

  /** A listing left as it is has only had indexes written. */
  lemma {:induction false} OnlyIndexesWrittenRefl(es: seq<Entry>)
    ensures OnlyIndexesWritten(es, es)
    decreases es
  {
    forall i | 0 <= i < |es| && es[i].node.Dir? ensures OnlyIndexesWritten(es[i].node.entries, es[i].node.entries) {
      OnlyIndexesWrittenRefl(es[i].node.entries);
    }
  }

  /** Writing `index.ts` as a file over a listing related to `es` keeps it related. */
  lemma {:induction false} SetIndexWrites(es: seq<Entry>, kids: seq<Entry>, content: string)
    requires OnlyIndexesWritten(es, kids) && |kids| == |es|
    requires !(Child(Dir(kids), IndexFileName).Some? && Child(Dir(kids), IndexFileName).value.Dir?)
    ensures OnlyIndexesWritten(es, SetChild(kids, IndexFileName, File(content)))
  {
  }

  /** A folder's pass writes only `index.ts` files, also when it stops at a failure. */
  lemma {:induction false} IndexListingWrites(es: seq<Entry>, path: string)
    ensures OnlyIndexesWritten(es, IndexListing(es, path).0)
    decreases es, 1
  {
    var kids := IndexChildren(es, path);
    IndexChildrenWrites(es, path);
    if kids.1.Pass? {
      var lines := ExportLines(kids.0);
      if lines != [] && !(Child(Dir(kids.0), IndexFileName).Some? && Child(Dir(kids.0), IndexFileName).value.Dir?) {
        SetIndexWrites(es, kids.0, IndexContent(lines));
      }
    }
  }

  /** The children pass writes only `index.ts` files below the listing, and adds no entry. */
  lemma {:induction false} IndexChildrenWrites(es: seq<Entry>, path: string)
    ensures OnlyIndexesWritten(es, IndexChildren(es, path).0)
    decreases es, 0
  {
    var r := IndexChildren(es, path);
    if es != [] {
      var e := es[0];
      var tail := IndexChildren(es[1..], path);
      match e.node {
        case File(_) =>
          IndexChildrenWrites(es[1..], path);
          ChildrenCons(es, e, tail.0);
        case Dir(sub) =>
          var c := IndexListing(sub, Join(path, e.name));
          IndexListingWrites(sub, Join(path, e.name));
          if c.1.Fail? {
            OnlyIndexesWrittenRefl(es[1..]);
            ChildrenCons(es, Entry(e.name, Dir(c.0)), es[1..]);
          } else {
            IndexChildrenWrites(es[1..], path);
            ChildrenCons(es, Entry(e.name, Dir(c.0)), tail.0);
          }
      }
    }
  }

  /** A first entry related to the first of `es`, followed by a listing related to the rest. */
  lemma {:induction false} ChildrenCons(es: seq<Entry>, first: Entry, rest: seq<Entry>)
    requires es != [] && |rest| == |es| - 1
    requires OnlyIndexesWritten(es[1..], rest)
    requires first.name == es[0].name
    requires es[0].node.File? ==> first == es[0]
    requires es[0].node.Dir? ==> first.node.Dir? && OnlyIndexesWritten(es[0].node.entries, first.node.entries)
    ensures OnlyIndexesWritten(es, [first] + rest)
  {
    var out := [first] + rest;
    forall i | 1 <= i < |es| ensures out[i] == rest[i - 1] && es[i] == es[1..][i - 1] {
    }
  }

  /**
   * The pass gives a listing export lines when it holds an exportable file,
   * or a subfolder that has an `index.ts` or whose own pass gives it lines.
   */
  predicate GetsLines(es: seq<Entry>)
    decreases es
  {
    exists i :: 0 <= i < |es| &&
      match es[i].node
      case File(_) => ExportableFile(es[i].name)
      case Dir(sub) => Child(es[i].node, IndexFileName).Some? || GetsLines(sub)
  }

  /** Some folder of the listing, itself included, has lines to write but a folder called `index.ts` in the way. */
  predicate Blocked(es: seq<Entry>)
    decreases es
  {
    || (exists i :: 0 <= i < |es| && es[i].node.Dir? && Blocked(es[i].node.entries))
    || (GetsLines(es) && Child(Dir(es), IndexFileName).Some? && Child(Dir(es), IndexFileName).value.Dir?)
  }

  /** The export lines and failures of a folder's pass, read off the listing before the pass. */
  lemma {:induction false} IndexListingOutcome(es: seq<Entry>, path: string)
    ensures var r := IndexListing(es, path);
      && (r.1.Fail? <==> Blocked(es))
      && (r.1.Pass? ==> (ExportLines(r.0) != [] <==> GetsLines(es)))
    decreases es, 1
  {
    var kids := IndexChildren(es, path);
    IndexChildrenOutcome(es, path);
    if kids.1.Pass? {
      var lines := ExportLines(kids.0);
      FindSameNames(kids.0, es, IndexFileName);
      var i := Find(es, IndexFileName);
      assert Child(Dir(kids.0), IndexFileName).Some? && Child(Dir(kids.0), IndexFileName).value.Dir?
        <==> Child(Dir(es), IndexFileName).Some? && Child(Dir(es), IndexFileName).value.Dir? by {
        if i < |es| {
          assert es[i].node.File? ==> kids.0[i] == es[i];
        }
      }
      if lines != [] && !(Child(Dir(kids.0), IndexFileName).Some? && Child(Dir(kids.0), IndexFileName).value.Dir?) {
        ExportLinesSetIndex(kids.0, IndexContent(lines));
      }
    }
  }

  /** The children pass fails exactly when some subfolder is blocked; its lines are read off the listing. */
  lemma {:induction false} IndexChildrenOutcome(es: seq<Entry>, path: string)
    ensures var r := IndexChildren(es, path);
      && (r.1.Fail? <==> exists i :: 0 <= i < |es| && es[i].node.Dir? && Blocked(es[i].node.entries))
      && (r.1.Pass? ==> (ExportLines(r.0) != [] <==> GetsLines(es)))
    decreases es, 0
  {
    if es != [] {
      var e := es[0];
      var tail := IndexChildren(es[1..], path);
      GetsLinesCons(es);
      BlockedChildCons(es);
      match e.node {
        case File(_) =>
          IndexChildrenOutcome(es[1..], path);
          LinesCons(e, tail.0);
        case Dir(sub) =>
          var c := IndexListing(sub, Join(path, e.name));
          IndexListingOutcome(sub, Join(path, e.name));
          if c.1.Pass? {
            IndexChildrenOutcome(es[1..], path);
            ParentExportsChild(e.name, sub, Join(path, e.name));
            LinesCons(Entry(e.name, Dir(c.0)), tail.0);
          }
      }
    }
  }

  /** The lines of a listing that starts with `e`. */
  lemma LinesCons(e: Entry, rest: seq<Entry>)
    ensures ExportLines([e] + rest) != [] <==> ExportLine(e).Some? || ExportLines(rest) != []
  {
    assert ([e] + rest)[0] == e && ([e] + rest)[1..] == rest;
  }

  /** Lines come from the first entry or from the rest of the listing. */
  lemma {:induction false} GetsLinesCons(es: seq<Entry>)
    requires es != []
    ensures GetsLines(es) <==>
      || (match es[0].node
          case File(_) => ExportableFile(es[0].name)
          case Dir(sub) => Child(es[0].node, IndexFileName).Some? || GetsLines(sub))
      || GetsLines(es[1..])
  {
    forall i | 1 <= i < |es| ensures es[i] == es[1..][i - 1] {
    }
    if GetsLines(es[1..]) {
      var j :| 0 <= j < |es[1..]| &&
        match es[1..][j].node
        case File(_) => ExportableFile(es[1..][j].name)
        case Dir(sub) => Child(es[1..][j].node, IndexFileName).Some? || GetsLines(sub);
      assert es[j + 1] == es[1..][j];
    }
  }

  /** A blocked subfolder is the first entry or one of the rest. */
  lemma {:induction false} BlockedChildCons(es: seq<Entry>)
    requires es != []
    ensures (exists i :: 0 <= i < |es| && es[i].node.Dir? && Blocked(es[i].node.entries)) <==>
      || (es[0].node.Dir? && Blocked(es[0].node.entries))
      || (exists i :: 0 <= i < |es[1..]| && es[1..][i].node.Dir? && Blocked(es[1..][i].node.entries))
  {
    forall i | 1 <= i < |es| ensures es[i] == es[1..][i - 1] {
    }
    if exists i :: 0 <= i < |es[1..]| && es[1..][i].node.Dir? && Blocked(es[1..][i].node.entries) {
      var j :| 0 <= j < |es[1..]| && es[1..][j].node.Dir? && Blocked(es[1..][j].node.entries);
      assert es[j + 1] == es[1..][j];
    }
  }

  // ---------------------------------------------------------------------------
  // The output roots
  // ---------------------------------------------------------------------------

  /**
   * `generateIndexFilesForPath(rootPath)`: `readdirSync` fails on a missing
   * root, on a file, or on the empty path `""`; otherwise the pass runs on the root's listing and what
   * it wrote is kept, also when it stopped at a failure.
   */
  function GenerateIndexFilesForPath(fs: Node, rootPath: string): (r: (Node, Outcome<IoError>))
    ensures rootPath == "" || !IsDir(fs, Components(rootPath)) ==> r.0 == fs && r.1.Fail?
    ensures r.1.Pass? ==>
      var c := Components(rootPath);
      IsDir(r.0, c) && Indexed(Get(r.0, c).value.entries)
    ensures var c := Components(rootPath);
      forall q :: !(q <= c) && !(c <= q) ==> Get(r.0, q) == Get(fs, q)
    ensures var c := Components(rootPath);
      IsDir(fs, c) ==> IsDir(r.0, c) && OnlyIndexesWritten(Get(fs, c).value.entries, Get(r.0, c).value.entries)
    ensures var c := Components(rootPath);
      r.1.Fail? <==> rootPath == "" || !IsDir(fs, c) || Blocked(Get(fs, c).value.entries)
  {
    var c := Components(rootPath);
    if rootPath == "" then
      OnlyIndexesWrittenRefl(if IsDir(fs, c) then Get(fs, c).value.entries else []);
      (fs, Fail(NoSuchEntry(rootPath)))
    else
      match Get(fs, c)
      case None => (fs, Fail(NoSuchEntry(rootPath)))
      case Some(File(_)) => (fs, Fail(NotADirectory(rootPath)))
      case Some(Dir(es)) =>
        ExistingCanUpdate(fs, c);
        var done := IndexListing(es, rootPath);
        var fs' := Update(fs, c, Dir(done.0));
        GetUpdate(fs, c, Dir(done.0));
        IndexListingIndexed(es, rootPath);
        IndexListingWrites(es, rootPath);
        IndexListingOutcome(es, rootPath);
        assert forall q :: !(q <= c) && !(c <= q) ==> Get(fs', q) == Get(fs, q) by {
          forall q | !(q <= c) && !(c <= q) ensures Get(fs', q) == Get(fs, q) {
            GetUpdateApart(fs, c, Dir(done.0), q);
          }
        }
        (fs', done.1)
  }

  /** Generating the indexes of a root a second time changes nothing. */
  lemma {:induction false} GenerateIndexFilesForPathIdempotent(fs: Node, rootPath: string)
    ensures var r := GenerateIndexFilesForPath(fs, rootPath);
      r.1.Pass? ==> GenerateIndexFilesForPath(r.0, rootPath) == (r.0, Pass)
  {
    var r := GenerateIndexFilesForPath(fs, rootPath);
    var c := Components(rootPath);
    if r.1.Pass? {
      var es := Get(r.0, c).value.entries;
      IndexedFixed(es, rootPath);
      UpdateSame(r.0, c);
    }
  }

  /** One `if (destinationPaths.x)` step: a set, non-empty root is processed unless an earlier one threw. */
  function ThenRoot(prev: (Node, Outcome<IoError>), root: Option<string>): (Node, Outcome<IoError>) {
    if prev.1.Fail? then prev
    else if Destinations.Configured(root) then GenerateIndexFilesForPath(prev.0, root.value)
    else prev
  }

  /** `generateIndexFilesRecursively`: commons, apis, components, extensions, in that order. */
  function GenerateIndexFilesRecursively(fs: Node, d: Destinations.DestinationPaths): (r: (Node, Outcome<IoError>))
    ensures r == ProcessRoots(fs, Roots(d))
    ensures Roots(d) == [] ==> r == (fs, Pass)
  {
    var r := ThenRoot(ThenRoot(ThenRoot(ThenRoot((fs, Pass), d.commons), d.apis), d.components), d.extensions);
    ThenRootProcesses(fs, [], d.commons);
    ThenRootProcesses(fs, SetRoot(d.commons), d.apis);
    ThenRootProcesses(fs, SetRoot(d.commons) + SetRoot(d.apis), d.components);
    ThenRootProcesses(fs, SetRoot(d.commons) + SetRoot(d.apis) + SetRoot(d.components), d.extensions);
    r
  }

  /** The root a field names, when it names one. */
  function SetRoot(root: Option<string>): seq<string> {
    if Destinations.Configured(root) then [root.value] else []
  }

  /** The roots that are set, in processing order. */
  function Roots(d: Destinations.DestinationPaths): seq<string> {
    SetRoot(d.commons) + SetRoot(d.apis) + SetRoot(d.components) + SetRoot(d.extensions)
  }

  /** The reference fold: every root in turn, stopping at the first failure. */
  function ProcessRoots(fs: Node, roots: seq<string>): (Node, Outcome<IoError>)
    decreases |roots|
  {
    if roots == [] then (fs, Pass)
    else
      var r := GenerateIndexFilesForPath(fs, roots[0]);
      if r.1.Fail? then r else ProcessRoots(r.0, roots[1..])
  }

  /** One more step after the fold is the fold over one more root. */
  lemma {:induction false} ThenRootProcesses(fs: Node, roots: seq<string>, root: Option<string>)
    ensures ThenRoot(ProcessRoots(fs, roots), root) == ProcessRoots(fs, roots + SetRoot(root))
    decreases |roots|
  {
    if roots == [] {
      assert roots + SetRoot(root) == SetRoot(root);
    } else {
      var r := GenerateIndexFilesForPath(fs, roots[0]);
      assert (roots + SetRoot(root))[0] == roots[0];
      assert (roots + SetRoot(root))[1..] == roots[1..] + SetRoot(root);
      if r.1.Pass? {
        ThenRootProcesses(r.0, roots[1..], root);
      }
    }
  }

  /** A failure stops the pass: the roots after the failing one are not processed. */
  lemma {:induction false} ProcessRootsStops(fs: Node, roots: seq<string>, i: nat)
    requires i < |roots|
    requires ProcessRoots(fs, roots[..i]).1.Pass?
    requires GenerateIndexFilesForPath(ProcessRoots(fs, roots[..i]).0, roots[i]).1.Fail?
    ensures ProcessRoots(fs, roots) == GenerateIndexFilesForPath(ProcessRoots(fs, roots[..i]).0, roots[i])
    decreases i
  {
    if i == 0 {
      assert roots[..0] == [];
    } else {
      var r := GenerateIndexFilesForPath(fs, roots[0]);
      assert roots[..i][0] == roots[0];
      assert roots[..i][1..] == roots[1..][..i - 1];
      ProcessRootsStops(r.0, roots[1..], i - 1);
    }
  }
}
