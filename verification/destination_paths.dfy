/**
 * `DestinationPaths`: turns the plugin's optional `destinationFolder` setting
 * into the four folders the generated interfaces go to.
 *
 * A configured destination is re-rooted under the project root, must lie
 * inside the project, must not be the root, `src`, or anything whose path
 * string starts with one of Strapi's reserved folders (checked in a fixed
 * order, the first match reported), and only then is its folder chain
 * created, followed by the four fixed subfolders. Without a destination the
 * two default folders under `src` are used.
 */
module Destinations {
  import opened Results
  import opened Paths
  import opened FileSystem
  import opened Strapi
  import opened FileHelpers

  const ComponentInterfacesFolderName: string := "interfaces"
  const ApisFolderName: string := "api"
  const CommonFolderName: string := "common"
  const ComponentsFolderName: string := "components"
  const ExtensionsFolderName: string := "extensions"

  /** The fixed folder names are plain entry names. */
  lemma FolderNamesPlain()
    ensures IsPlain(CommonFolderName) && IsPlain(ApisFolderName)
    ensures IsPlain(ComponentsFolderName) && IsPlain(ExtensionsFolderName)
  {
  }

  /** The two settings the constructor reads. */
  datatype PluginConfig = PluginConfig(destinationFolder: Option<string>, commonInterfacesFolderName: string)

  /** The result: the four output folders (unset ones are `None`) and the two flags. */
  datatype DestinationPaths = DestinationPaths(
    commons: Option<string>,
    apis: Option<string>,
    components: Option<string>,
    extensions: Option<string>,
    useForApisAndComponents: bool,
    componentInterfacesFolderName: string)

  /** The folders a destination may not be, or (from `ApiFolder` on) lie under. */
  datatype CoreFolder =
    | RootFolder | SrcFolder
    | ApiFolder | ComponentsFolder | ExtensionsFolder | PoliciesFolder | MiddlewaresFolder
    | ConfigFolder | DistFolder | StaticFolder

  /** Why the constructor gave up: a violated rule, or a failure creating a folder. */
  datatype Error = NotInside | IsCoreFolder(folder: CoreFolder) | Io(cause: IoError)

  /** A destination is configured when the setting is a non-empty string (JavaScript truthiness). */
  predicate Configured(destinationFolder: Option<string>) {
    destinationFolder.Some? && destinationFolder.value != ""
  }

  // ---------------------------------------------------------------------------
  // assertDestinationIsNotStrapiCoreFolder
  // ---------------------------------------------------------------------------

  /** The position of each rule in the order the checks run. */
  function Rank(f: CoreFolder): nat {
    match f
    case RootFolder => 0
    case SrcFolder => 1
    case ApiFolder => 2
    case ComponentsFolder => 3
    case ExtensionsFolder => 4
    case PoliciesFolder => 5
    case MiddlewaresFolder => 6
    case ConfigFolder => 7
    case DistFolder => 8
    case StaticFolder => 9
  }

  function CoreFolderPath(f: CoreFolder, d: StrapiDirectories): string {
    match f
    case RootFolder => d.app.root
    case SrcFolder => d.app.src
    case ApiFolder => d.app.api
    case ComponentsFolder => d.app.components
    case ExtensionsFolder => d.app.extensions
    case PoliciesFolder => d.app.policies
    case MiddlewaresFolder => d.app.middlewares
    case ConfigFolder => d.app.config
    case DistFolder => d.distRoot
    case StaticFolder => d.staticPublic
  }

  /** One rule on its own: the root and `src` by string equality, the others by raw string prefix. */
  predicate Violates(destination: string, d: StrapiDirectories, f: CoreFolder) {
    if f == RootFolder || f == SrcFolder then destination == CoreFolderPath(f, d)
    else StartsWith(destination, CoreFolderPath(f, d))
  }

  /** The checks in the code's order; the first one that fails is reported. */
  function CoreFolderViolation(destination: string, d: StrapiDirectories): (r: Option<CoreFolder>)
    ensures r.Some? ==> Violates(destination, d, r.value)
    ensures r.Some? ==> forall g :: Rank(g) < Rank(r.value) ==> !Violates(destination, d, g)
    ensures r.None? ==> forall g :: !Violates(destination, d, g)
  {
    if destination == d.app.root then Some(RootFolder)
    else if destination == d.app.src then Some(SrcFolder)
    else if StartsWith(destination, d.app.api) then Some(ApiFolder)
    else if StartsWith(destination, d.app.components) then Some(ComponentsFolder)
    else if StartsWith(destination, d.app.extensions) then Some(ExtensionsFolder)
    else if StartsWith(destination, d.app.policies) then Some(PoliciesFolder)
    else if StartsWith(destination, d.app.middlewares) then Some(MiddlewaresFolder)
    else if StartsWith(destination, d.app.config) then Some(ConfigFolder)
    else if StartsWith(destination, d.distRoot) then Some(DistFolder)
    else if StartsWith(destination, d.staticPublic) then Some(StaticFolder)
    else None
  }

  // ---------------------------------------------------------------------------
  // getFinalDestinationFolder
  // ---------------------------------------------------------------------------

  /** `removeStrapiRootPathFromFullPath`: the destination relative to the root. */
  function RemoveStrapiRootPathFromFullPath(destinationFolder: string, strapiRootPath: string): (r: string)
    ensures Components(Join(strapiRootPath, r)) == Components(destinationFolder)
  {
    RelativeRejoins(strapiRootPath, destinationFolder);
    Relative(strapiRootPath, destinationFolder)
  }

  /** A destination that starts with the root string is made relative first, then joined onto the root. */
  function Candidate(destinationFolder: string, root: string): string {
    var route := if StartsWith(destinationFolder, root)
      then RemoveStrapiRootPathFromFullPath(destinationFolder, root)
      else destinationFolder;
    Join(root, route)
  }

  /** `.filter(part => part !== '')`. */
  function NonEmptyParts(s: seq<string>): (r: seq<string>)
    ensures forall i :: 0 <= i < |r| ==> r[i] != ""
    ensures forall x :: x in r <==> x in s && x != ""
    ensures (forall i :: 0 <= i < |s| ==> s[i] != "") ==> r == s
  {
    if s == [] then []
    else if s[0] == "" then NonEmptyParts(s[1..])
    else [s[0]] + NonEmptyParts(s[1..])
  }

  /**
   * The filter keeps the order and the number of copies of what it keeps:
   * filtering two lists in a row filters each in turn, and a single part
   * survives exactly when it is not empty.
   */
  lemma {:induction false} NonEmptyPartsAppend(a: seq<string>, b: seq<string>)
    ensures NonEmptyParts(a + b) == NonEmptyParts(a) + NonEmptyParts(b)
    ensures |a| == 1 ==> NonEmptyParts(a) == (if a[0] == "" then [] else a)
    decreases |a|
  {
    if a == [] {
      assert a + b == b;
    } else {
      assert (a + b)[0] == a[0] && (a + b)[1..] == a[1..] + b;
      NonEmptyPartsAppend(a[1..], b);
      if a[0] != "" {
        assert [a[0]] + (NonEmptyParts(a[1..]) + NonEmptyParts(b))
            == ([a[0]] + NonEmptyParts(a[1..])) + NonEmptyParts(b);
      }
      if |a| == 1 {
        assert a[1..] == [];
      }
    }
  }

  /** The parts of a relative route are exactly the climbs and names `Relative` put together. */
  lemma {:induction false} RelativeParts(from: string, to: string)
    ensures var f := Components(from); var t := Components(to); var k := CommonPrefixLength(f, t);
      NonEmptyParts(Split(Relative(from, to))) == Repeat("..", |f| - k) + t[k..]
  {
    var f := Components(from);
    var t := Components(to);
    var k := CommonPrefixLength(f, t);
    var parts := Repeat("..", |f| - k) + t[k..];
    assert Relative(from, to) == JoinSegs(parts);
    RouteParts(f, t, k);
  }

  /** The non-empty parts of a joined route are its segments. */
  lemma {:induction false} RouteParts(f: seq<string>, t: seq<string>, k: nat)
    requires k <= |f| && k <= |t|
    requires forall i :: 0 <= i < |t| ==> IsPlain(t[i])
    ensures var parts := Repeat("..", |f| - k) + t[k..];
      NonEmptyParts(Split(JoinSegs(parts))) == parts
  {
    var parts := Repeat("..", |f| - k) + t[k..];
    RelativeSegs(f, t, k);
    RelativeSegsPlain(f, t, k);
    assert NonEmptyParts([""]) == [];
  }



  /** The folders of the route from `root` to `destination`, as the code splits and filters them. */
  function RouteFolders(destination: string, root: string): seq<string> {
    NonEmptyParts(Split(RemoveStrapiRootPathFromFullPath(destination, root)))
  }

  /** Walking the route's folders down from the root arrives at the destination. */
  lemma {:induction false} RouteFoldersArrive(destination: string, root: string)
    ensures forall i :: 0 <= i < |RouteFolders(destination, root)| ==> Sep !in RouteFolders(destination, root)[i]
    ensures Resolve(Components(root), RouteFolders(destination, root), true) == Components(destination)
  {
    var f := Components(root);
    var t := Components(destination);
    var k := CommonPrefixLength(f, t);
    var route := JoinSegs(Repeat("..", |f| - k) + t[k..]);
    assert RemoveStrapiRootPathFromFullPath(destination, root) == route by {
      assert Relative(root, destination) == route;
    }
    RouteArrives(f, t, k);
  }

  /** The folders of a climb-then-descend route have no separators and lead from `f` to `t`. */
  lemma {:induction false} RouteArrives(f: seq<string>, t: seq<string>, k: nat)
    requires k <= |f| && k <= |t| && f[..k] == t[..k]
    requires forall i :: 0 <= i < |f| ==> IsPlain(f[i])
    requires forall i :: 0 <= i < |t| ==> IsPlain(t[i])
    ensures var folders := NonEmptyParts(Split(JoinSegs(Repeat("..", |f| - k) + t[k..])));
      && (forall i :: 0 <= i < |folders| ==> Sep !in folders[i])
      && Resolve(f, folders, true) == t
  {
    RouteParts(f, t, k);
    RelativeSegsPlain(f, t, k);
    ClimbThenDescend(f, t, k);
  }

  /**
   * The last step of the check: split the route from the root to the checked
   * destination and create its folders one by one below the root.
   */
  function CreateRoute(fs: Node, destination: string, root: string): (r: (Node, Result<string, Error>))
    ensures Grows(fs, r.0)
    ensures r.1.Ok? ==> Components(r.1.value) == Components(destination)
    ensures r.1.Err? ==> r.1.error.Io?
    ensures IsDir(fs, Components(root)) && NoFileOnPath(fs, Components(destination)) ==>
      r.1.Ok? && IsDir(r.0, Components(destination))
  {
    RouteFoldersArrive(destination, root);
    RouteCreated(fs, destination, root);
    var made := EnsureFolderPathExistRecursive(fs, root, RouteFolders(destination, root));
    (made.0, if made.1.Ok? then Ok(made.1.value) else Err(Io(made.1.error)))
  }

  /** With the root a folder and no file on the way to the destination, the route is created and ends in a folder. */
  lemma {:induction false} RouteCreated(fs: Node, destination: string, root: string)
    ensures var made := EnsureFolderPathExistRecursive(fs, root, RouteFolders(destination, root));
      IsDir(fs, Components(root)) && NoFileOnPath(fs, Components(destination)) ==>
        made.1.Ok? && IsDir(made.0, Components(destination))
  {
    var route := RouteFolders(destination, root);
    if IsDir(fs, Components(root)) && NoFileOnPath(fs, Components(destination)) {
      RouteFoldersArrive(destination, root);
      forall i | 0 <= i < |route| ensures NotFile(fs, Components(Folders(root, route)[i])) {
        RouteFolderNotFile(fs, destination, root, i);
      }
      EnsureFolderPathExistRecursiveSucceeds(fs, root, route);
      var made := EnsureFolderPathExistRecursive(fs, root, route);
      if route == [] {
        assert Resolve(Components(root), route, true) == Components(root);
      } else {
        FoldersComponents(root, route, |route| - 1);
        assert route[..|route|] == route;
      }
    }
  }

  /** The route's folders are the climb `..` and then the rest of the destination. */
  lemma {:induction false} RouteFoldersShape(destination: string, root: string)
    ensures var f := Components(root); var t := Components(destination); var k := CommonPrefixLength(f, t);
      RouteFolders(destination, root) == Repeat("..", |f| - k) + t[k..]
  {
    RelativeParts(root, destination);
  }

  /** Each folder on the route is an ancestor of the root or a folder above the destination, so no file. */
  lemma {:induction false} RouteFolderNotFile(fs: Node, destination: string, root: string, i: nat)
    requires IsDir(fs, Components(root)) && NoFileOnPath(fs, Components(destination))
    requires i < |RouteFolders(destination, root)|
    ensures NotFile(fs, Components(Folders(root, RouteFolders(destination, root))[i]))
  {
    var f := Components(root);
    var t := Components(destination);
    var k := CommonPrefixLength(f, t);
    var route := RouteFolders(destination, root);
    assert route == Repeat("..", |f| - k) + t[k..] by {
      RouteFoldersShape(destination, root);
    }
    assert forall j :: 0 <= j < |route| ==> Sep !in route[j] by {
      RouteFoldersArrive(destination, root);
    }
    assert Components(Folders(root, route)[i]) == Resolve(f, route[..i + 1], true) by {
      FoldersComponents(root, route, i);
    }
    RouteStepNotFile(fs, f, t, k, i);
  }

  lemma {:induction false} RouteStepNotFile(fs: Node, f: seq<string>, t: seq<string>, k: nat, i: nat)
    requires k <= |f| && k <= |t| && f[..k] == t[..k]
    requires forall j :: 0 <= j < |f| ==> IsPlain(f[j])
    requires forall j :: 0 <= j < |t| ==> IsPlain(t[j])
    requires i < |f| - k + (|t| - k)
    requires IsDir(fs, f) && NoFileOnPath(fs, t)
    ensures NotFile(fs, Resolve(f, (Repeat("..", |f| - k) + t[k..])[..i + 1], true))
  {
    RoutePrefix(f, t, k, i);
    if i < |f| - k {
      AncestorsAreDirs(fs, f, f[..|f| - (i + 1)]);
    } else {
      assert NotFile(fs, t[..k + (i + 1 - (|f| - k))]);
    }
  }

  /** The `i`-th folder of a climb-then-descend route: an ancestor of `f` while climbing, then a folder above `t`. */
  lemma {:induction false} RoutePrefix(f: seq<string>, t: seq<string>, k: nat, i: nat)
    requires k <= |f| && k <= |t| && f[..k] == t[..k]
    requires forall j :: 0 <= j < |f| ==> IsPlain(f[j])
    requires forall j :: 0 <= j < |t| ==> IsPlain(t[j])
    requires i < |f| - k + (|t| - k)
    ensures var route := Repeat("..", |f| - k) + t[k..];
      Resolve(f, route[..i + 1], true)
      == if i < |f| - k then f[..|f| - (i + 1)] else t[..k + (i + 1 - (|f| - k))]
  {
    var m := |f| - k;
    var route := Repeat("..", m) + t[k..];
    if i < m {
      assert route[..i + 1] == Repeat("..", i + 1);
      PopMany(f, i + 1);
    } else {
      var t' := t[..k + (i + 1 - m)];
      assert route[..i + 1] == Repeat("..", m) + t'[k..];
      ClimbThenDescend(f, t', k);
    }
  }

  /** The steps after the inside check: trim, run the core-folder checks, create the route. */
  function CheckedRoute(fs: Node, joined: string, d: StrapiDirectories): (r: (Node, Result<string, Error>))
    ensures var n := NormalizeWithoutTrailingSeparator(joined);
      && (r.1.Err? && r.1.error.IsCoreFolder? <==> CoreFolderViolation(n, d).Some?)
      && (CoreFolderViolation(n, d).Some? ==> r == (fs, Err(IsCoreFolder(CoreFolderViolation(n, d).value))))
    ensures r.1.Err? ==> r.1.error != NotInside
    ensures Grows(fs, r.0)
    ensures r.1.Ok? ==> Components(r.1.value) == Components(joined)
    ensures (&& CoreFolderViolation(NormalizeWithoutTrailingSeparator(joined), d).None?
             && IsDir(fs, Components(d.app.root)) && NoFileOnPath(fs, Components(joined)))
      ==> r.1.Ok? && IsDir(r.0, Components(joined))
  {
    var n := NormalizeWithoutTrailingSeparator(joined);
    TrimmedComponents(joined);
    match CoreFolderViolation(n, d)
    case Some(f) => (fs, Err(IsCoreFolder(f)))
    case None => CreateRoute(fs, n, d.app.root)
  }

  /**
   * `getFinalDestinationFolder` as written: the inside check compares raw
   * strings, so a sibling folder whose name extends the root's passes it.
   */
  function GetFinalDestinationFolderAsWritten(fs: Node, destinationFolder: string, d: StrapiDirectories)
    : (r: (Node, Result<string, Error>))
    ensures var joined := Candidate(destinationFolder, d.app.root);
      && (r.1 == Err(NotInside) <==> !StartsWith(joined, d.app.root))
      && (r.1.Err? && r.1.error.IsCoreFolder? <==>
            StartsWith(joined, d.app.root)
            && CoreFolderViolation(NormalizeWithoutTrailingSeparator(joined), d).Some?)
      && (r.1.Ok? ==> Components(r.1.value) == Components(joined))
    ensures var n := NormalizeWithoutTrailingSeparator(Candidate(destinationFolder, d.app.root));
      r.1.Err? && r.1.error.IsCoreFolder? ==> r.1.error.folder == CoreFolderViolation(n, d).value
    ensures r.1.Err? && !r.1.error.Io? ==> r.0 == fs
    ensures Grows(fs, r.0)
    ensures var joined := Candidate(destinationFolder, d.app.root);
      (&& StartsWith(joined, d.app.root)
       && CoreFolderViolation(NormalizeWithoutTrailingSeparator(joined), d).None?
       && IsDir(fs, Components(d.app.root)) && NoFileOnPath(fs, Components(joined)))
      ==> r.1.Ok? && IsDir(r.0, Components(joined))
  {
    var joined := Candidate(destinationFolder, d.app.root);
    if !StartsWith(joined, d.app.root) then (fs, Err(NotInside))
    else CheckedRoute(fs, joined, d)
  }

  /** The destination lies in the root folder or below it, compared component by component. */
  predicate Inside(destination: string, root: string) {
    Components(root) <= Components(destination)
  }

  /**
   * `getFinalDestinationFolder` with the inside check it evidently intends:
   * the destination's components must extend the root's.
   */
  function GetFinalDestinationFolder(fs: Node, destinationFolder: string, d: StrapiDirectories)
    : (r: (Node, Result<string, Error>))
    ensures var joined := Candidate(destinationFolder, d.app.root);
      && (r.1 == Err(NotInside) <==> !Inside(joined, d.app.root))
      && (r.1.Err? && r.1.error.IsCoreFolder? <==>
            Inside(joined, d.app.root)
            && CoreFolderViolation(NormalizeWithoutTrailingSeparator(joined), d).Some?)
      && (r.1.Ok? ==> Components(r.1.value) == Components(joined))
    ensures var n := NormalizeWithoutTrailingSeparator(Candidate(destinationFolder, d.app.root));
      r.1.Err? && r.1.error.IsCoreFolder? ==> r.1.error.folder == CoreFolderViolation(n, d).value
    ensures r.1.Err? && !r.1.error.Io? ==> r.0 == fs
    ensures r.1.Ok? ==> Inside(r.1.value, d.app.root)
    ensures Grows(fs, r.0)
    ensures var joined := Candidate(destinationFolder, d.app.root);
      (&& Inside(joined, d.app.root)
       && CoreFolderViolation(NormalizeWithoutTrailingSeparator(joined), d).None?
       && IsDir(fs, Components(d.app.root)) && NoFileOnPath(fs, Components(joined)))
      ==> r.1.Ok? && IsDir(r.0, Components(joined))
  {
    var joined := Candidate(destinationFolder, d.app.root);
    if !Inside(joined, d.app.root) then (fs, Err(NotInside))
    else CheckedRoute(fs, joined, d)
  }

  // ---------------------------------------------------------------------------
  // The constructor
  // ---------------------------------------------------------------------------

  /** `ensureFolderPathExistRecursive(folder, name)` for one plain folder name. */
  function Subfolder(fs: Node, folder: string, name: string): (r: (Node, Result<string, Error>))
    requires IsPlain(name)
    ensures Grows(fs, r.0)
    ensures r.1.Err? ==> r.1.error.Io?
    ensures r.1.Ok? ==> Components(r.1.value) == Components(folder) + [name]
    ensures r.1.Ok? ==> Exists(r.0, Components(folder) + [name])
    ensures IsDir(fs, Components(folder)) && NotFile(fs, Components(folder) + [name]) ==>
      r.1.Ok? && IsDir(r.0, Components(folder) + [name])
  {
    var made := EnsureFolderPathExistRecursive(fs, folder, [name]);
    SubfolderComponents(folder, name);
    SubfolderCreated(fs, folder, name);
    (made.0, if made.1.Ok? then Ok(made.1.value) else Err(Io(made.1.error)))
  }

  /** A plain subfolder of a folder is created unless a file is in its place. */
  lemma {:induction false} SubfolderCreated(fs: Node, folder: string, name: string)
    requires IsPlain(name)
    ensures var made := EnsureFolderPathExistRecursive(fs, folder, [name]);
      IsDir(fs, Components(folder)) && NotFile(fs, Components(folder) + [name]) ==>
        made.1.Ok? && IsDir(made.0, Components(folder) + [name])
  {
    if IsDir(fs, Components(folder)) && NotFile(fs, Components(folder) + [name]) {
      JoinPlainComponents(folder, name);
      assert Folders(folder, [name]) == [Join(folder, name)];
      EnsureFolderPathExistRecursiveSucceeds(fs, folder, [name]);
    }
  }

  /** A tree that only grows keeps its folders. */
  lemma GrowsKeepsDir(a: Node, b: Node, q: seq<string>)
    requires Grows(a, b) && IsDir(a, q)
    ensures IsDir(b, q)
  {
    assert Exists(b, q) && NotFile(b, q);
  }

  /** `ensureFolderPathExistRecursive(folder, name)` for each name in turn, stopping at the first failure. */
  function Subfolders(fs: Node, folder: string, names: seq<string>): (r: (Node, Result<seq<string>, Error>))
    requires forall i :: 0 <= i < |names| ==> IsPlain(names[i])
    ensures Grows(fs, r.0)
    ensures r.1.Err? ==> r.1.error.Io?
    ensures r.1.Ok? ==> |r.1.value| == |names|
    ensures r.1.Ok? ==> forall i :: 0 <= i < |names| ==> Components(r.1.value[i]) == Components(folder) + [names[i]]
    ensures r.1.Ok? ==> forall i :: 0 <= i < |names| ==> Exists(r.0, Components(folder) + [names[i]])
    ensures IsDir(fs, Components(folder)) && (forall i :: 0 <= i < |names| ==> NotFile(fs, Components(folder) + [names[i]])) ==>
      r.1.Ok? && forall i :: 0 <= i < |names| ==> IsDir(r.0, Components(folder) + [names[i]])
    decreases |names|
  {
    if names == [] then (fs, Ok([]))
    else
      var first := Subfolder(fs, folder, names[0]);
      if first.1.Err? then (first.0, Err(first.1.error))
      else
        SubfoldersStep(fs, first.0, folder, names);
        var rest := Subfolders(first.0, folder, names[1..]);
        GrowsTransitive(fs, first.0, rest.0);
        SubfoldersDirs(first.0, rest.0, folder, names);
        SubfoldersExist(first.0, rest.0, folder, names);
        if rest.1.Err? then rest
        else
          SubfoldersCons(folder, names, first.1.value, rest.1.value);
          (rest.0, Ok([first.1.value] + rest.1.value))
  }

  /** After the first subfolder, the folder is still a folder and the later places still hold no file. */
  lemma {:induction false} SubfoldersStep(fs: Node, next: Node, folder: string, names: seq<string>)
    requires names != [] && Grows(fs, next)
    ensures IsDir(fs, Components(folder)) && (forall i :: 0 <= i < |names| ==> NotFile(fs, Components(folder) + [names[i]])) ==>
      && IsDir(next, Components(folder))
      && forall i :: 0 <= i < |names| - 1 ==> NotFile(next, Components(folder) + [names[1..][i]])
  {
    if IsDir(fs, Components(folder)) && (forall i :: 0 <= i < |names| ==> NotFile(fs, Components(folder) + [names[i]])) {
      GrowsKeepsDir(fs, next, Components(folder));
      forall i | 0 <= i < |names| - 1 ensures NotFile(next, Components(folder) + [names[1..][i]]) {
        assert names[1..][i] == names[i + 1];
        assert NotFile(fs, Components(folder) + [names[i + 1]]);
      }
    }
  }

  /** The first subfolder, made before the rest, is still a folder after them. */
  lemma {:induction false} SubfoldersDirs(mid: Node, after: Node, folder: string, names: seq<string>)
    requires names != [] && Grows(mid, after)
    ensures (&& IsDir(mid, Components(folder) + [names[0]])
             && (forall i :: 0 <= i < |names| - 1 ==> IsDir(after, Components(folder) + [names[1..][i]])))
      ==> forall i :: 0 <= i < |names| ==> IsDir(after, Components(folder) + [names[i]])
  {
    if IsDir(mid, Components(folder) + [names[0]])
      && (forall i :: 0 <= i < |names| - 1 ==> IsDir(after, Components(folder) + [names[1..][i]])) {
      GrowsKeepsDir(mid, after, Components(folder) + [names[0]]);
      forall i | 0 <= i < |names| ensures IsDir(after, Components(folder) + [names[i]]) {
        if i > 0 {
          assert names[i] == names[1..][i - 1];
        }
      }
    }
  }

  /** The first subfolder, made before the rest, still exists after them. */
  lemma {:induction false} SubfoldersExist(mid: Node, after: Node, folder: string, names: seq<string>)
    requires names != [] && Grows(mid, after)
    ensures (&& Exists(mid, Components(folder) + [names[0]])
             && (forall i :: 0 <= i < |names| - 1 ==> Exists(after, Components(folder) + [names[1..][i]])))
      ==> forall i :: 0 <= i < |names| ==> Exists(after, Components(folder) + [names[i]])
  {
    if Exists(mid, Components(folder) + [names[0]])
      && (forall i :: 0 <= i < |names| - 1 ==> Exists(after, Components(folder) + [names[1..][i]])) {
      forall i | 0 <= i < |names| ensures Exists(after, Components(folder) + [names[i]]) {
        if i > 0 {
          assert names[i] == names[1..][i - 1];
        }
      }
    }
  }

  lemma {:induction false} SubfoldersCons(folder: string, names: seq<string>, v: string, vs: seq<string>)
    requires names != [] && |vs| == |names| - 1
    requires Components(v) == Components(folder) + [names[0]]
    requires forall i :: 0 <= i < |vs| ==> Components(vs[i]) == Components(folder) + [names[1..][i]]
    ensures forall i :: 0 <= i < |names| ==> Components(([v] + vs)[i]) == Components(folder) + [names[i]]
  {
    forall i | 0 <= i < |names|
      ensures Components(([v] + vs)[i]) == Components(folder) + [names[i]]
    {
      if i > 0 {
        assert ([v] + vs)[i] == vs[i - 1];
        assert names[1..][i - 1] == names[i];
      }
    }
  }

  /** No file sits where one of the four fixed subfolders of `c` goes. */
  predicate SubfoldersFree(n: Node, c: seq<string>) {
    && NotFile(n, c + [CommonFolderName]) && NotFile(n, c + [ApisFolderName])
    && NotFile(n, c + [ComponentsFolderName]) && NotFile(n, c + [ExtensionsFolderName])
  }

  /** The four fixed subfolders of `c` exist in `n`, as files or folders. */
  predicate FixedExist(n: Node, c: seq<string>) {
    && Exists(n, c + [CommonFolderName]) && Exists(n, c + [ApisFolderName])
    && Exists(n, c + [ComponentsFolderName]) && Exists(n, c + [ExtensionsFolderName])
  }

  /** The four fixed subfolders of `c` are folders in `n`. */
  predicate FixedDirs(n: Node, c: seq<string>) {
    && IsDir(n, c + [CommonFolderName]) && IsDir(n, c + [ApisFolderName])
    && IsDir(n, c + [ComponentsFolderName]) && IsDir(n, c + [ExtensionsFolderName])
  }

  lemma {:induction false} FixedNamesFree(n: Node, c: seq<string>, names: seq<string>)
    requires names == [CommonFolderName, ApisFolderName, ComponentsFolderName, ExtensionsFolderName]
    ensures SubfoldersFree(n, c) ==> forall i :: 0 <= i < |names| ==> NotFile(n, c + [names[i]])
  {
  }

  /** A tree that only grows keeps the places of the subfolders free of files. */
  lemma GrowsKeepsFree(a: Node, b: Node, c: seq<string>)
    requires Grows(a, b) && SubfoldersFree(a, c)
    ensures SubfoldersFree(b, c)
  {
    assert NotFile(b, c + [CommonFolderName]) && NotFile(b, c + [ApisFolderName]);
    assert NotFile(b, c + [ComponentsFolderName]) && NotFile(b, c + [ExtensionsFolderName]);
  }

  /** What holds for each of the four names holds for the four fixed subfolders. */
  lemma {:induction false} FixedNamesReached(n: Node, c: seq<string>, names: seq<string>)
    requires names == [CommonFolderName, ApisFolderName, ComponentsFolderName, ExtensionsFolderName]
    ensures (forall i :: 0 <= i < |names| ==> Exists(n, c + [names[i]])) ==> FixedExist(n, c)
    ensures (forall i :: 0 <= i < |names| ==> IsDir(n, c + [names[i]])) ==> FixedDirs(n, c)
  {
    assert names[0] == CommonFolderName && names[1] == ApisFolderName;
    assert names[2] == ComponentsFolderName && names[3] == ExtensionsFolderName;
  }

  /** The constructor's four fixed subfolders of the final destination folder, created in order. */
  function FixedSubfolders(fs: Node, folder: string): (r: (Node, Result<DestinationPaths, Error>))
    ensures Grows(fs, r.0)
    ensures r.1.Err? ==> r.1.error.Io?
    ensures r.1.Ok? ==>
      var p := r.1.value;
      && p.useForApisAndComponents == (folder != "")
      && p.componentInterfacesFolderName == ComponentInterfacesFolderName
      && p.commons.Some? && p.apis.Some? && p.components.Some? && p.extensions.Some?
      && Components(p.commons.value) == Components(folder) + [CommonFolderName]
      && Components(p.apis.value) == Components(folder) + [ApisFolderName]
      && Components(p.components.value) == Components(folder) + [ComponentsFolderName]
      && Components(p.extensions.value) == Components(folder) + [ExtensionsFolderName]
    ensures r.1.Ok? ==> FixedExist(r.0, Components(folder))
    ensures IsDir(fs, Components(folder)) && SubfoldersFree(fs, Components(folder)) ==>
      r.1.Ok? && FixedDirs(r.0, Components(folder))
  {
    FolderNamesPlain();
    var names := [CommonFolderName, ApisFolderName, ComponentsFolderName, ExtensionsFolderName];
    FixedNamesFree(fs, Components(folder), names);
    var made := Subfolders(fs, folder, names);
    FixedNamesReached(made.0, Components(folder), names);
    if made.1.Err? then (made.0, Err(made.1.error))
    else
      var v := made.1.value;
      (made.0, Ok(DestinationPaths(Some(v[0]), Some(v[1]), Some(v[2]), Some(v[3]), folder != "", ComponentInterfacesFolderName)))
  }

  /** The default folders when no destination is configured: `src/common/<commonInterfacesFolderName>` and `src/extensions`. */
  function DefaultFolders(fs: Node, config: PluginConfig, d: StrapiDirectories): (r: (Node, Result<DestinationPaths, Error>))
    ensures Grows(fs, r.0)
    ensures r.1.Err? ==> r.1.error.Io?
    ensures r.1.Ok? ==>
      var p := r.1.value;
      && p.commons.Some? && p.extensions.Some? && p.apis.None? && p.components.None?
      && !p.useForApisAndComponents
      && p.componentInterfacesFolderName == ComponentInterfacesFolderName
      && Components(p.extensions.value) == Components(d.app.src) + [ExtensionsFolderName]
      && (Sep !in config.commonInterfacesFolderName ==>
            Components(p.commons.value)
            == Resolve(Components(d.app.src), [CommonFolderName, config.commonInterfacesFolderName], true))
    ensures r.1.Ok? ==>
      Exists(r.0, Components(r.1.value.commons.value)) && Exists(r.0, Components(r.1.value.extensions.value))
    ensures var src := Components(d.app.src);
      var name := config.commonInterfacesFolderName;
      (&& IsDir(fs, src) && IsPlain(name)
       && NotFile(fs, src + [CommonFolderName]) && NotFile(fs, src + [CommonFolderName, name])
       && NotFile(fs, src + [ExtensionsFolderName]))
      ==> && r.1.Ok?
          && IsDir(r.0, src + [CommonFolderName, name]) && IsDir(r.0, src + [ExtensionsFolderName])
  {
    FolderNamesPlain();
    var commons := EnsureFolderPathExistRecursive(fs, d.app.src, [CommonFolderName, config.commonInterfacesFolderName]);
    var extensions := EnsureFolderPathExistRecursive(commons.0, d.app.src, [ExtensionsFolderName]);
    SubfolderComponents(d.app.src, ExtensionsFolderName);
    GrowsTransitive(fs, commons.0, extensions.0);
    DefaultCreated(fs, d.app.src, config.commonInterfacesFolderName, commons, extensions);
    if commons.1.Err? then (commons.0, Err(Io(commons.1.error)))
    else if extensions.1.Err? then (extensions.0, Err(Io(extensions.1.error)))
    else
      (extensions.0, Ok(DestinationPaths(
        Some(commons.1.value), None, None, Some(extensions.1.value), false, ComponentInterfacesFolderName)))
  }

  /**
   * The default chains `src/common/<name>` and `src/extensions` are created
   * when `src` is a folder, the name is plain and no file is in their way.
   */
  lemma {:induction false} DefaultCreated(
    fs: Node, src: string, name: string, commons: (Node, Result<string, IoError>), extensions: (Node, Result<string, IoError>))
    requires IsPlain(CommonFolderName) && IsPlain(ExtensionsFolderName)
    requires commons == EnsureFolderPathExistRecursive(fs, src, [CommonFolderName, name])
    requires extensions == EnsureFolderPathExistRecursive(commons.0, src, [ExtensionsFolderName])
    ensures (&& IsDir(fs, Components(src)) && IsPlain(name)
             && NotFile(fs, Components(src) + [CommonFolderName])
             && NotFile(fs, Components(src) + [CommonFolderName, name])
             && NotFile(fs, Components(src) + [ExtensionsFolderName]))
      ==> && commons.1.Ok? && extensions.1.Ok?
          && IsDir(extensions.0, Components(src) + [CommonFolderName, name])
          && IsDir(extensions.0, Components(src) + [ExtensionsFolderName])
  {
    var c := Components(src);
    if && IsDir(fs, c) && IsPlain(name)
       && NotFile(fs, c + [CommonFolderName]) && NotFile(fs, c + [CommonFolderName, name])
       && NotFile(fs, c + [ExtensionsFolderName])
    {
      CommonChainCreated(fs, src, name);
      GrowsKeepsDir(fs, commons.0, c);
      GrowsKeepsNotFile(fs, commons.0, c + [ExtensionsFolderName]);
      SubfolderCreated(commons.0, src, ExtensionsFolderName);
      GrowsKeepsDir(commons.0, extensions.0, c + [CommonFolderName, name]);
    }
  }

  /** The chain `common`, `<name>` below a folder is created unless a file is in its way. */
  lemma {:induction false} CommonChainCreated(fs: Node, src: string, name: string)
    requires IsPlain(CommonFolderName) && IsPlain(name) && IsDir(fs, Components(src))
    requires NotFile(fs, Components(src) + [CommonFolderName])
    requires NotFile(fs, Components(src) + [CommonFolderName, name])
    ensures var r := EnsureFolderPathExistRecursive(fs, src, [CommonFolderName, name]);
      r.1.Ok? && IsDir(r.0, Components(src) + [CommonFolderName, name])
  {
    var subs := [CommonFolderName, name];
    var chain := Folders(src, subs);
    ChainOfTwo(src, CommonFolderName, name);
    forall i | 0 <= i < |subs| ensures Sep !in subs[i] && NotFile(fs, Components(chain[i])) {
      assert i == 0 || i == 1;
    }
    EnsureFolderPathExistRecursiveSucceeds(fs, src, subs);
    assert IsDir(EnsureFolderPathExistRecursive(fs, src, subs).0, Components(chain[1]));
  }

  /** The chain of two plain names below `src` names `src/a` and `src/a/b`. */
  lemma {:induction false} ChainOfTwo(src: string, a: string, b: string)
    requires IsPlain(a) && IsPlain(b)
    ensures var chain := Folders(src, [a, b]);
      && |chain| == 2
      && Components(chain[0]) == Components(src) + [a]
      && Components(chain[1]) == Components(src) + [a, b]
  {
    var first := Join(src, a);
    JoinPlainComponents(src, a);
    JoinPlainComponents(first, b);
    assert Components(first) + [b] == Components(src) + [a, b];
    assert Folders(src, [a, b]) == [first, Join(first, b)] by {
      assert [a, b][1..] == [b];
      assert Folders(first, [b]) == [Join(first, b)];
    }
  }

  /** A tree that only grows puts no file where there was none. */
  lemma GrowsKeepsNotFile(a: Node, b: Node, q: seq<string>)
    requires Grows(a, b) && NotFile(a, q)
    ensures NotFile(b, q)
  {
  }

  /**
   * `new DestinationPaths(config, strapiPaths)` on the filesystem `fs`, as
   * written: a configured destination goes through the raw-prefix inside check.
   */
  function NewAsWritten(fs: Node, config: PluginConfig, d: StrapiDirectories): (r: (Node, Result<DestinationPaths, Error>))
    ensures r.1.Ok? ==> r.1.value.componentInterfacesFolderName == ComponentInterfacesFolderName
    ensures Grows(fs, r.0)
    ensures r.1.Err? && !r.1.error.Io? ==> r.0 == fs
    ensures !Configured(config.destinationFolder) ==> r == DefaultFolders(fs, config, d)
    ensures Configured(config.destinationFolder) ==>
      var final := GetFinalDestinationFolderAsWritten(fs, config.destinationFolder.value, d);
      && (final.1.Err? ==> r == (final.0, Err(final.1.error)))
      && (final.1.Ok? ==> r == FixedSubfolders(final.0, final.1.value))
    ensures Configured(config.destinationFolder) && r.1.Ok? ==>
      SubfoldersOf(r.1.value, Components(Candidate(config.destinationFolder.value, d.app.root)))
      && FixedExist(r.0, Components(Candidate(config.destinationFolder.value, d.app.root)))
  {
    if Configured(config.destinationFolder) then
      var final := GetFinalDestinationFolderAsWritten(fs, config.destinationFolder.value, d);
      if final.1.Err? then (final.0, Err(final.1.error))
      else
        var r := FixedSubfolders(final.0, final.1.value);
        GrowsTransitive(fs, final.0, r.0);
        r
    else
      DefaultFolders(fs, config, d)
  }

  /**
   * `new DestinationPaths(config, strapiPaths)` with the corrected inside
   * check: every folder it returns for a configured destination lies inside
   * the root.
   */
  function New(fs: Node, config: PluginConfig, d: StrapiDirectories): (r: (Node, Result<DestinationPaths, Error>))
    ensures r.1.Ok? ==> r.1.value.componentInterfacesFolderName == ComponentInterfacesFolderName
    ensures Grows(fs, r.0)
    ensures r.1.Err? && !r.1.error.Io? ==> r.0 == fs
    ensures !Configured(config.destinationFolder) ==> r == DefaultFolders(fs, config, d)
    ensures Configured(config.destinationFolder) ==>
      var final := GetFinalDestinationFolder(fs, config.destinationFolder.value, d);
      && (final.1.Err? ==> r == (final.0, Err(final.1.error)))
      && (final.1.Ok? ==> r == FixedSubfolders(final.0, final.1.value))
    ensures Configured(config.destinationFolder) && r.1.Ok? ==>
      SubfoldersOf(r.1.value, Components(Candidate(config.destinationFolder.value, d.app.root)))
      && FixedExist(r.0, Components(Candidate(config.destinationFolder.value, d.app.root)))
    ensures Configured(config.destinationFolder) && r.1.Ok? ==>
      var p := r.1.value;
      && Inside(p.commons.value, d.app.root) && Inside(p.apis.value, d.app.root)
      && Inside(p.components.value, d.app.root) && Inside(p.extensions.value, d.app.root)
  {
    if Configured(config.destinationFolder) then
      var final := GetFinalDestinationFolder(fs, config.destinationFolder.value, d);
      if final.1.Err? then (final.0, Err(final.1.error))
      else
        var r := FixedSubfolders(final.0, final.1.value);
        GrowsTransitive(fs, final.0, r.0);
        r
    else
      DefaultFolders(fs, config, d)
  }

  /** The four folders are set and are the fixed subfolders of the folder `c`. */
  predicate SubfoldersOf(p: DestinationPaths, c: seq<string>) {
    && p.commons.Some? && p.apis.Some? && p.components.Some? && p.extensions.Some?
    && Components(p.commons.value) == c + [CommonFolderName]
    && Components(p.apis.value) == c + [ApisFolderName]
    && Components(p.components.value) == c + [ComponentsFolderName]
    && Components(p.extensions.value) == c + [ExtensionsFolderName]
  }

  /**
   * The constructor as written succeeds for a configured destination that
   * passes the raw-prefix and core-folder checks, when the root is a folder and
   * no file stands on the way to the destination or where its subfolders go.
   */
  lemma {:induction false} NewAsWrittenSucceeds(fs: Node, config: PluginConfig, d: StrapiDirectories)
    requires Configured(config.destinationFolder)
    ensures var joined := Candidate(config.destinationFolder.value, d.app.root);
      (&& StartsWith(joined, d.app.root)
       && CoreFolderViolation(NormalizeWithoutTrailingSeparator(joined), d).None?
       && IsDir(fs, Components(d.app.root))
       && NoFileOnPath(fs, Components(joined))
       && SubfoldersFree(fs, Components(joined)))
      ==> NewAsWritten(fs, config, d).1.Ok? && FixedDirs(NewAsWritten(fs, config, d).0, Components(joined))
  {
    var joined := Candidate(config.destinationFolder.value, d.app.root);
    var final := GetFinalDestinationFolderAsWritten(fs, config.destinationFolder.value, d);
    if && StartsWith(joined, d.app.root)
       && CoreFolderViolation(NormalizeWithoutTrailingSeparator(joined), d).None?
       && IsDir(fs, Components(d.app.root))
       && NoFileOnPath(fs, Components(joined))
       && SubfoldersFree(fs, Components(joined))
    {
      GrowsKeepsFree(fs, final.0, Components(joined));
    }
  }

  /**
   * The corrected constructor succeeds for a configured destination inside the
   * root that passes the core-folder checks, when the root is a folder and no
   * file stands on the way to the destination or where its subfolders go.
   */
  lemma {:induction false} NewSucceeds(fs: Node, config: PluginConfig, d: StrapiDirectories)
    requires Configured(config.destinationFolder)
    ensures var joined := Candidate(config.destinationFolder.value, d.app.root);
      (&& Inside(joined, d.app.root)
       && CoreFolderViolation(NormalizeWithoutTrailingSeparator(joined), d).None?
       && IsDir(fs, Components(d.app.root))
       && NoFileOnPath(fs, Components(joined))
       && SubfoldersFree(fs, Components(joined)))
      ==> New(fs, config, d).1.Ok? && FixedDirs(New(fs, config, d).0, Components(joined))
  {
    var joined := Candidate(config.destinationFolder.value, d.app.root);
    var final := GetFinalDestinationFolder(fs, config.destinationFolder.value, d);
    if && Inside(joined, d.app.root)
       && CoreFolderViolation(NormalizeWithoutTrailingSeparator(joined), d).None?
       && IsDir(fs, Components(d.app.root))
       && NoFileOnPath(fs, Components(joined))
       && SubfoldersFree(fs, Components(joined))
    {
      GrowsKeepsFree(fs, final.0, Components(joined));
    }
  }

  /** Creating one plain subfolder lands one level below the start. */
  lemma {:induction false} SubfolderComponents(start: string, name: string)
    requires IsPlain(name)
    ensures Resolve(Components(start), [name], true) == Components(start) + [name]
  {
  }

  // ---------------------------------------------------------------------------
  // Properties of the destination resolution
  // ---------------------------------------------------------------------------

  /** With a plain interfaces folder name, the default commons folder is `src/common/<name>`. */
  lemma {:induction false} DefaultCommons(fs: Node, config: PluginConfig, d: StrapiDirectories)
    requires IsPlain(config.commonInterfacesFolderName)
    requires DefaultFolders(fs, config, d).1.Ok?
    ensures Components(DefaultFolders(fs, config, d).1.value.commons.value)
         == Components(d.app.src) + [CommonFolderName, config.commonInterfacesFolderName]
  {
    FolderNamesPlain();
    ResolveTwoPlain(Components(d.app.src), CommonFolderName, config.commonInterfacesFolderName);
  }

  /** Descending through two plain names appends both. */
  lemma {:induction false} ResolveTwoPlain(start: seq<string>, a: string, b: string)
    requires IsPlain(a) && IsPlain(b)
    ensures Resolve(start, [a, b], true) == start + [a, b]
  {
    var s1 := start + [a];
    assert [a, b][1..] == [b];
    assert Step(start, a, true) == s1;
    assert Resolve(start, [a, b], true) == Resolve(s1, [b], true);
    assert Step(s1, b, true) == s1 + [b];
    assert Resolve(s1, [b], true) == Resolve(s1 + [b], [], true);
    assert s1 + [b] == start + [a, b];
  }

  /** An absolute path normalises to the rendering of its components, with or without a trailing separator. */
  lemma {:induction false} JoinedAbsolute(root: string, route: string)
    requires root != "" && root[0] == Sep
    ensures var j := Join(root, route);
      j == Render(Components(j), true, false) || j == Render(Components(j), true, true)
  {
    var q := if route == "" then root else root + [Sep] + route;
    assert Join(root, route) == Normalize(q);
    assert q[0] == Sep;
    ComponentsOfNormalize(q);
  }

  /** An absolute rendering trims to the same string whether or not it carries a trailing separator. */
  lemma {:induction false} TrimmedRendering(c: seq<string>, t: bool)
    requires forall i :: 0 <= i < |c| ==> IsPlain(c[i])
    ensures NormalizeWithoutTrailingSeparator(Render(c, true, t)) == (if c == [] then "" else Render(c, true, false))
  {
    assert Clean(c, true);
    RenderIsNormal(c, true, t);
    TrimRendered(c, true, t);
  }

  /** Adding a trailing separator does not change whether a path starts with a root that does not end in one. */
  lemma {:induction false} StartsWithTrailing(r: string, root: string)
    requires root != "" && root[|root| - 1] != Sep
    ensures StartsWith(r + [Sep], root) <==> StartsWith(r, root)
  {
    if StartsWith(r + [Sep], root) {
      assert root == (r + [Sep])[..|root|] == r[..|root|];
    }
  }

  /** Two renderings of the same components trim alike and agree on starting with a root that does not end in a separator. */
  lemma {:induction false} RenderedAlike(c: seq<string>, ta: bool, tb: bool, root: string)
    requires forall i :: 0 <= i < |c| ==> IsPlain(c[i])
    requires root != "" && root[|root| - 1] != Sep
    ensures NormalizeWithoutTrailingSeparator(Render(c, true, ta)) == NormalizeWithoutTrailingSeparator(Render(c, true, tb))
    ensures StartsWith(Render(c, true, ta), root) <==> StartsWith(Render(c, true, tb), root)
  {
    TrimmedRendering(c, ta);
    TrimmedRendering(c, tb);
    if c != [] {
      assert Clean(c, true);
      RenderTrailing(c, true, true);
      StartsWithTrailing(Render(c, true, false), root);
    }
  }

  /** The root followed by a route resolves where the route joined onto the root does. */
  lemma {:induction false} RootedComponents(root: string, route: string)
    ensures Components(Candidate(root + [Sep] + route, root)) == Components(Join(root, route))
  {
    var x := root + [Sep] + route;
    assert StartsWith(x, root);
    SplitConcat(root, route);
    ResolveAppend([], Split(root), Split(route), true);
    JoinComponents(root, route);
  }

  /** Both candidates are renderings of the same components, so they trim alike and pass the same prefix check. */
  lemma {:induction false} CandidatesAgree(route: string, root: string)
    requires root != "" && root[0] == Sep && root[|root| - 1] != Sep
    requires !StartsWith(route, root)
    ensures var a := Candidate(root + [Sep] + route, root); var b := Candidate(route, root);
      && Components(a) == Components(b)
      && NormalizeWithoutTrailingSeparator(a) == NormalizeWithoutTrailingSeparator(b)
      && (StartsWith(a, root) <==> StartsWith(b, root))
  {
    var x := root + [Sep] + route;
    assert StartsWith(x, root);
    var a := Candidate(x, root);
    var b := Candidate(route, root);
    RootedComponents(root, route);
    var c := Components(b);
    JoinedAbsolute(root, Relative(root, x));
    JoinedAbsolute(root, route);
    var ta := a != Render(c, true, false);
    var tb := b != Render(c, true, false);
    assert a == Render(c, true, ta) && b == Render(c, true, tb);
    RenderedAlike(c, ta, tb, root);
  }

  /** The checks after the inside test look only at the trimmed destination. */
  lemma {:induction false} CheckedRouteTrimmed(fs: Node, a: string, b: string, d: StrapiDirectories)
    requires NormalizeWithoutTrailingSeparator(a) == NormalizeWithoutTrailingSeparator(b)
    ensures CheckedRoute(fs, a, d) == CheckedRoute(fs, b, d)
  {
  }

  /**
   * Re-rooting of a destination that starts with the root: an absolute destination written as the root
   * followed by a route resolves exactly as the bare route does, provided the
   * route itself does not start with the root string.
   */
  lemma {:induction false} ReRooting(fs: Node, route: string, d: StrapiDirectories)
    requires d.app.root != "" && d.app.root[0] == Sep && d.app.root[|d.app.root| - 1] != Sep
    requires !StartsWith(route, d.app.root)
    ensures GetFinalDestinationFolderAsWritten(fs, d.app.root + "/" + route, d)
         == GetFinalDestinationFolderAsWritten(fs, route, d)
    ensures GetFinalDestinationFolder(fs, d.app.root + "/" + route, d)
         == GetFinalDestinationFolder(fs, route, d)
  {
    var root := d.app.root;
    assert root + "/" + route == root + [Sep] + route;
    CandidatesAgree(route, root);
    CheckedRouteTrimmed(fs, Candidate(root + [Sep] + route, root), Candidate(route, root), d);
  }

  // ---------------------------------------------------------------------------
  // The sibling that passes the raw-prefix inside check
  // ---------------------------------------------------------------------------

  lemma {:induction false} SplitRooted(name: string)
    requires Sep !in name
    ensures Split([Sep] + name) == ["", name]
  {
    SplitNoSep("");
    SplitNoSep(name);
    SplitConcat("", name);
    assert "" + [Sep] + name == [Sep] + name;
  }

  /** `/p` is its own trimmed form and resolves to the single component `p`. */
  lemma {:induction false} RootedName(p: string)
    requires IsPlain(p)
    ensures Components([Sep] + p) == [p]
    ensures Render([p], true, false) == [Sep] + p
    ensures NormalizeWithoutTrailingSeparator([Sep] + p) == [Sep] + p
  {
    SplitRooted(p);
    assert Resolve([], ["", p], true) == Resolve([], [p], true) == Resolve([p], [], true);
    TrimmedShape([Sep] + p);
  }

  /** `join('/p', '../g')` is `/g`. */
  lemma {:induction false} SiblingCandidate(p: string, g: string)
    requires IsPlain(p) && IsPlain(g) && !StartsWith("../" + g, [Sep] + p)
    ensures Candidate("../" + g, [Sep] + p) == [Sep] + g
  {
    var q := [Sep] + p + [Sep] + ("../" + g);
    assert Candidate("../" + g, [Sep] + p) == Normalize(q);
    SplitSibling(p, g);
    ResolveSibling(p, g);
    assert q[0] == Sep && q[|q| - 1] == g[|g| - 1];
    assert Normalize(q) == Render([g], true, false);
    assert Render([g], true, false) == [Sep] + g;
  }

  /** The pieces of `/p/../g`. */
  lemma {:induction false} SplitSibling(p: string, g: string)
    requires IsPlain(p) && IsPlain(g)
    ensures Split([Sep] + p + [Sep] + ("../" + g)) == ["", p, "..", g]
  {
    SplitRooted(p);
    SplitNoSep("..");
    SplitNoSep(g);
    SplitConcat("..", g);
    assert ".." + [Sep] + g == "../" + g;
    SplitConcat([Sep] + p, "../" + g);
  }

  /** Normalising the pieces of `/p/../g` leaves `g`. */
  lemma {:induction false} ResolveSibling(p: string, g: string)
    requires IsPlain(p) && IsPlain(g)
    ensures Resolve([], ["", p, "..", g], true) == [g]
  {
    assert Resolve([], ["", p, "..", g], true) == Resolve([], [p, "..", g], true);
    assert Resolve([], [p, "..", g], true) == Resolve([p], ["..", g], true);
    assert Resolve([p], ["..", g], true) == Resolve([], [g], true);
    assert Resolve([], [g], true) == Resolve([g], [], true);
  }

  /** A path with no separator after its first character is under no `root/`. */
  lemma {:induction false} NotBelow(x: string, root: string)
    requires root != "" && x != "" && Sep !in x[1..]
    ensures !StartsWith(x, root + [Sep])
  {
    if |root| < |x| {
      assert x[|root|] == x[1..][|root| - 1];
      assert x[|root|] != (root + [Sep])[|root|];
    }
  }

  /** `/g` is neither the root `/p` nor under any reserved folder of the layout built from `/p`. */
  lemma {:induction false} SiblingNotCore(p: string, g: string)
    requires IsPlain(p) && IsPlain(g) && p != g
    ensures CoreFolderViolation([Sep] + g, BuildStrapiDirectoriesFromRootPath([Sep] + p)) == None
  {
    var root := [Sep] + p;
    var x := [Sep] + g;
    var d := BuildStrapiDirectoriesFromRootPath(root);
    RootedName(p);
    assert d.app.root == root;
    assert Clean([p], true);
    LayoutStartsWithRoot([p], true);
    var under := root + [Sep];
    NotBelow(x, root);
    assert x != root by {
      assert x[1..] == g && root[1..] == p;
    }
    NotUnder(x, under, d.app.src);
    NotUnder(x, under, d.app.api);
    NotUnder(x, under, d.app.components);
    NotUnder(x, under, d.app.extensions);
    NotUnder(x, under, d.app.policies);
    NotUnder(x, under, d.app.middlewares);
    NotUnder(x, under, d.app.config);
    NotUnder(x, under, d.distRoot);
    NotUnder(x, under, d.staticPublic);
  }

  /** A path that does not start with `prefix` starts with nothing that does. */
  lemma NotUnder(x: string, prefix: string, y: string)
    requires StartsWith(y, prefix) && !StartsWith(x, prefix)
    ensures !StartsWith(x, y) && x != y
  {
  }

  /** The route from `/p` to `/g` climbs once and descends into `g`. */
  lemma {:induction false} SiblingRoute(p: string, g: string)
    requires IsPlain(p) && IsPlain(g) && p != g
    ensures RouteFolders([Sep] + g, [Sep] + p) == ["..", g]
  {
    RootedName(p);
    RootedName(g);
    assert CommonPrefixLength([p], [g]) == 0;
    assert Repeat("..", 1) == [".."];
    assert Relative([Sep] + p, [Sep] + g) == JoinSegs(["..", g]);
    SplitJoin(["..", g]);
  }

  /** `join('/p', '..')` is the filesystem root `/`. */
  lemma {:induction false} ClimbToRoot(p: string)
    requires IsPlain(p)
    ensures Join([Sep] + p, "..") == "/"
    ensures Components("/") == []
  {
    var up := [Sep] + p + [Sep] + "..";
    SplitRooted(p);
    SplitNoSep("..");
    SplitConcat([Sep] + p, "..");
    assert Split(up) == ["", p, ".."];
    assert Resolve([], ["", p, ".."], true) == [] by {
      assert Step([], "", true) == [];
      assert Step([], p, true) == [p];
      assert Step([p], "..", true) == [];
      assert Resolve([], ["", p, ".."], true) == Resolve([], [p, ".."], true);
      assert Resolve([], [p, ".."], true) == Resolve([p], [".."], true);
      assert Resolve([p], [".."], true) == Resolve([], [], true);
    }
    assert up[0] == Sep && up[|up| - 1] == '.';
    assert Normalize(up) == Render([], true, false);
    SplitRooted("");
    assert Split("/") == ["", ""];
    assert Resolve([], ["", ""], true) == [] by {
      assert Resolve([], ["", ""], true) == Resolve([], [""], true);
      assert Resolve([], [""], true) == Resolve([], [], true);
    }
  }

  /** `join('/', 'g')` is `/g`. */
  lemma {:induction false} DescendFromRoot(g: string)
    requires IsPlain(g)
    ensures Join("/", g) == [Sep] + g
  {
    var down := "/" + [Sep] + g;
    SplitNoSep("");
    SplitRooted(g);
    SplitConcat("", [Sep] + g);
    assert "" + [Sep] + ([Sep] + g) == down;
    assert Resolve([], ["", "", g], true) == [g] by {
      assert Resolve([], ["", "", g], true) == Resolve([], ["", g], true);
      assert Resolve([], ["", g], true) == Resolve([], [g], true);
      assert Resolve([], [g], true) == Resolve([g], [], true);
    }
    assert down[|down| - 1] == g[|g| - 1];
    RootedName(g);
  }

  /** Walking `..` then `g` down from `/p` creates `/g` next to `/p`. */
  lemma {:induction false} SiblingCreated(p: string, g: string)
    requires IsPlain(p) && IsPlain(g) && p != g
    ensures var fs := Dir([Entry(p, Dir([]))]);
      var r := EnsureFolderPathExistRecursive(fs, [Sep] + p, ["..", g]);
      r.1 == Ok([Sep] + g) && IsDir(r.0, [g])
  {
    var fs := Dir([Entry(p, Dir([]))]);
    ClimbToRoot(p);
    DescendFromRoot(g);
    RootedName(g);
    assert Exists(fs, []);
    assert Find(fs.entries, g) == 1;
    assert !Exists(fs, [g]);
    var made := MakeDirectory(fs, [Sep] + g);
    assert made.1 == Pass;
    assert EnsureFolderPathExistRecursive(fs, [Sep] + p, ["..", g])
        == EnsureFolderPathExistRecursive(fs, "/", [g]);
    assert EnsureFolderPathExistRecursive(fs, "/", [g])
        == EnsureFolderPathExistRecursive(made.0, [Sep] + g, []);
  }

  /**
   * The raw-prefix inside check (`startsWith` on the joined path, before and after trimming) lets a sibling of the
   * root through: for a root `/p` and a folder name `g` that extends `p`, the
   * destination `../g` joins to `/g`, which starts with the string `/p`, so the
   * code goes on to create `/g` next to the project. The component-wise check
   * rejects the same destination and leaves the tree alone.
   */
  lemma {:induction false} SiblingEscapesRoot(p: string, g: string)
    requires IsPlain(p) && IsPlain(g) && StartsWith(g, p) && p != g
    ensures var d := BuildStrapiDirectoriesFromRootPath([Sep] + p);
      var fs := Dir([Entry(p, Dir([]))]);
      var asWritten := GetFinalDestinationFolderAsWritten(fs, "../" + g, d);
      && asWritten.1 == Ok([Sep] + g)
      && IsDir(asWritten.0, [g])
      && !Inside([Sep] + g, [Sep] + p)
      && GetFinalDestinationFolder(fs, "../" + g, d) == (fs, Err(NotInside))
  {
    var root := [Sep] + p;
    var d := BuildStrapiDirectoriesFromRootPath(root);
    RootedName(p);
    RootedName(g);
    assert d.app.root == root;
    assert !StartsWith("../" + g, root) by {
      assert ("../" + g)[0] != root[0];
    }
    SiblingCandidate(p, g);
    assert StartsWith([Sep] + g, root);
    SiblingNotCore(p, g);
    SiblingRoute(p, g);
    SiblingCreated(p, g);
  }

  /**
   * The same sibling through the whole constructor: as written it returns
   * four folders under `/g`, next to the project; the corrected constructor
   * rejects `../g` and leaves the tree alone.
   */
  lemma {:induction false} NewSiblingEscapesRoot(p: string, g: string, name: string)
    requires IsPlain(p) && IsPlain(g) && StartsWith(g, p) && p != g
    ensures var d := BuildStrapiDirectoriesFromRootPath([Sep] + p);
      var fs := Dir([Entry(p, Dir([]))]);
      var config := PluginConfig(Some("../" + g), name);
      var asWritten := NewAsWritten(fs, config, d);
      && asWritten.1.Ok?
      && Components(asWritten.1.value.commons.value) == [g, CommonFolderName]
      && !Inside(asWritten.1.value.commons.value, d.app.root)
      && New(fs, config, d) == (fs, Err(NotInside))
  {
    var root := [Sep] + p;
    var d := BuildStrapiDirectoriesFromRootPath(root);
    var fs := Dir([Entry(p, Dir([]))]);
    var config := PluginConfig(Some("../" + g), name);
    var joined := Candidate("../" + g, d.app.root);
    assert d.app.root == root && Components(root) == [p] && joined == [Sep] + g && Components(joined) == [g] by {
      SiblingFacts(p, g);
    }
    assert StartsWith(joined, root) by {
      RootedPrefix(p, g);
    }
    assert New(fs, config, d) == (fs, Err(NotInside)) by {
      SiblingEscapesRoot(p, g);
    }
    assert CoreFolderViolation(NormalizeWithoutTrailingSeparator(joined), d).None? by {
      SiblingNotCore(p, g);
      RootedName(g);
    }
    assert IsDir(fs, [p]) && NoFileOnPath(fs, [g]) && SubfoldersFree(fs, [g]) by {
      SiblingTreeFree(p, g);
    }
    assert Configured(config.destinationFolder) && config.destinationFolder.value == "../" + g;
    ConstructorOutside(fs, config, d, p, g, joined);
  }

  /** A destination that passes the raw checks and resolves to `[g]` beside the root `[p]` gets its folders outside the root. */
  lemma {:induction false} ConstructorOutside(fs: Node, config: PluginConfig, d: StrapiDirectories, p: string, g: string, joined: string)
    requires Configured(config.destinationFolder) && p != g
    requires Components(d.app.root) == [p]
    requires joined == Candidate(config.destinationFolder.value, d.app.root)
    requires StartsWith(joined, d.app.root)
    requires CoreFolderViolation(NormalizeWithoutTrailingSeparator(joined), d).None?
    requires Components(joined) == [g]
    requires IsDir(fs, [p]) && NoFileOnPath(fs, [g]) && SubfoldersFree(fs, [g])
    ensures var r := NewAsWritten(fs, config, d);
      && r.1.Ok?
      && Components(r.1.value.commons.value) == [g, CommonFolderName]
      && !Inside(r.1.value.commons.value, d.app.root)
  {
    NewAsWrittenSucceeds(fs, config, d);
    assert !([p] <= [g, CommonFolderName]);
  }

  /** The root `/p` of the sibling example and the joined destination `/g`. */
  lemma {:induction false} SiblingFacts(p: string, g: string)
    requires IsPlain(p) && IsPlain(g) && StartsWith(g, p) && p != g
    ensures var d := BuildStrapiDirectoriesFromRootPath([Sep] + p);
      && d.app.root == [Sep] + p
      && Components([Sep] + p) == [p]
      && Candidate("../" + g, [Sep] + p) == [Sep] + g
      && Components([Sep] + g) == [g]
  {
    var root := [Sep] + p;
    RootedName(p);
    RootedName(g);
    assert !StartsWith("../" + g, root) by {
      assert ("../" + g)[0] != root[0];
    }
    SiblingCandidate(p, g);
  }

  /** `/g` starts with `/p` when `g` starts with `p`. */
  lemma RootedPrefix(p: string, g: string)
    requires StartsWith(g, p)
    ensures StartsWith([Sep] + g, [Sep] + p)
  {
    assert ([Sep] + g)[..|p| + 1] == [Sep] + g[..|p|];
  }

  /** In the tree holding only `/p`, nothing is in the way of `/g` or its subfolders. */
  lemma {:induction false} SiblingTreeFree(p: string, g: string)
    requires p != g
    ensures var fs := Dir([Entry(p, Dir([]))]);
      IsDir(fs, [p]) && NoFileOnPath(fs, [g]) && SubfoldersFree(fs, [g])
  {
    var fs := Dir([Entry(p, Dir([]))]);
    assert Find(fs.entries, p) == 0;
    assert Find(fs.entries, g) == 1;
    assert Child(fs, g) == None;
    assert [g][..0] == [] && [g][..1] == [g];
  }
}
