# Output manager of the Strapi schemas-to-ts plugin, in Dafny

This project models the part of the Strapi `schemas-to-ts` plugin that decides
where the generated TypeScript interfaces go and keeps that output tree tidy.
It covers:

- `DestinationPaths` (`server/models/destinationPaths.ts`). It turns the
  optional `destinationFolder` setting into the `commons`, `apis`,
  `components` and `extensions` folders.
  - A configured destination is re-rooted under the Strapi root and must stay
    inside the project.
  - It must not be the root or `src`, and its path string must not start with
    any of Strapi's reserved folders. The reserved folders are checked in a
    fixed order, and the first match is reported.
  - Only once the destination passes are its folder chain and the four fixed
    subfolders created.
  - With no destination configured, two default folders under `src` are used.
- The `FileHelpers` class (`server/schemas-to-ts/fileHelpers.ts`):
  - trailing-separator normalisation;
  - idempotent creation of a folder chain;
  - writing a file only when its content changed;
  - the Strapi layout built from a root path;
  - the collector that deletes stale generated `.ts` files;
  - the post-order pass that writes `index.ts` barrel files.

The filesystem is an immutable tree (`FileSystem.Node`) whose directories list
their entries in `readdir` order. Every operation takes the tree and returns
the new tree together with its result. A failure part-way through keeps the
writes made before it, as the synchronous `fs` calls do. Node's posix `path`
functions are modelled in `Paths` over strings with `/` as the only separator.

Modules:

- `Results`: `Option`, `Result`, `Outcome`.
- `Paths`: `split`, `join`, `normalize`, `resolve`, `relative`, `basename`, `extname`.
- `FileSystem`: the tree, lookups and updates, and `mkdirSync`.
- `Strapi`: the layout record.
- `FileHelpers`: normalisation, folder chains, `writeInterfaceFile`, and the layout from a root path.
- `Cleanup`: `deleteUnnecessaryGeneratedInterfaces`.
- `Destinations`: the `DestinationPaths` constructor and its checks.
- `IndexFiles`: the barrel pass.

### Behaviour of the code worth knowing

- **Inside check.** The check that the destination lies inside the project
  compares raw strings with `startsWith` (destinationPaths.ts:57-61). It also
  accepts a sibling folder whose name extends the root's name. See
  "## Findings".
- **Nesting inside the root or `src`.** The root and `src` are rejected only
  by equality, so a folder below `src` is accepted. The other reserved areas
  are rejected by raw string prefix. That also rejects a sibling such as
  `src/api-types`.
- **Result of `writeInterfaceFile`.** It returns `path.join(folder, fileName)`.
  That path is absolute only when the folder is absolute.
- **Strapi root `/`.** `normalizeWithoutTrailingSeparator('/')` is `""`, so
  `app.root` is `""`. The cleanup then calls `readdirSync('')`, which fails
  with "no such entry" instead of reading `/`.
- **Subfolder exports.** A subfolder is re-exported when `index.ts` exists in
  it (`existsSync`), whether that `index.ts` is a file or a folder.

## Model

| member | source | states |
|---|---|---|
| Destinations.CoreFolderViolation | server/models/destinationPaths.ts:67-107 | A reported rule is violated. No rule that runs earlier is violated. When nothing is reported, no rule is violated. The root and `src` are matched by equality, the eight reserved folders by raw string prefix. |
| Destinations.RemoveStrapiRootPathFromFullPath | server/models/destinationPaths.ts:63-65 | Joining the root with the relative route leads back to the destination folder. |
| Destinations.NonEmptyParts | server/models/destinationPaths.ts:52 | The filter keeps exactly the non-empty parts, and leaves a list without empty parts unchanged. |
| Destinations.NonEmptyPartsAppend | server/models/destinationPaths.ts:52 | The filter keeps order and multiplicity: filtering two lists in a row gives their filtered parts in turn, and a single part is kept exactly when it is not empty. |
| Destinations.RelativeParts | server/models/destinationPaths.ts:51-52 | The parts of the relative route climb with `..` from the root to the deepest common folder, then descend to the destination. |
| Destinations.RouteFoldersArrive | server/models/destinationPaths.ts:51-53 | The route parts contain no separator. Walking them down from the root arrives at the destination's components. |
| Destinations.CreateRoute | server/models/destinationPaths.ts:51-54 | Creating the route only adds folders and never changes a file. On success the returned folder is the destination. It fails only with a filesystem error. When the root is a folder and no file lies on the way to the destination, it succeeds and the destination is a folder. |
| Destinations.RouteCreated | server/models/destinationPaths.ts:51-54 | Walking the route folders down from a root that is a folder, with no file on the way to the destination, succeeds and leaves the destination a folder. |
| Destinations.CheckedRoute | server/models/destinationPaths.ts:48-54 | A core-folder violation of the trimmed path is reported with its rule, and the tree is left untouched. Otherwise the folder chain is created and reaches the destination. Without a violation, with the root a folder and no file on the way, it succeeds. |
| Destinations.GetFinalDestinationFolderAsWritten | server/models/destinationPaths.ts:40-61 | The code as written. The "not inside" error is raised exactly when the joined path does not start with the root string. A core-folder error is raised exactly when that check passes and a core rule is violated, and it names the violated folder of the trimmed path. Both validation errors leave the tree unchanged. On success the folder is the joined destination. When both checks pass, the root is a folder and no file lies on the way, it succeeds. |
| Destinations.GetFinalDestinationFolder | server/models/destinationPaths.ts:40-61 | The same steps with the inside check on path components. The "not inside" error is raised exactly when the joined path is not the root or below it. A core-folder error names the violated folder of the trimmed path. On success the folder is inside the root. Validation errors create nothing. When both checks pass, the root is a folder and no file lies on the way, it succeeds. |
| Destinations.Subfolder | server/models/destinationPaths.ts:25-28 | The created subfolder is a direct entry of the given folder, it exists on success, and the tree only grows. In a folder where the name is not a file, it succeeds and the subfolder is a folder. |
| Destinations.Subfolders | server/models/destinationPaths.ts:25-28 | Each fixed name gives one direct subfolder of the destination, each exists on success, and the tree only grows. In a folder where none of the names is a file, it succeeds and every subfolder is a folder. |
| Destinations.FixedSubfolders | server/models/destinationPaths.ts:25-29 | The result has `common`, `api`, `components` and `extensions` directly under the destination, and all four exist on success. `useForApisAndComponents` is true for a non-empty destination. The interfaces folder name is `interfaces`. In a folder where none of the four names is a file, it succeeds and all four are folders. |
| Destinations.DefaultFolders | server/models/destinationPaths.ts:32-37 | `extensions` is `src/extensions` and `commons` is `src/common/<name>`, and both exist on success. `apis` and `components` are unset, and `useForApisAndComponents` is false. When `src` is a folder, the name is plain and no file is in the way, it succeeds and both are folders. |
| Destinations.DefaultCreated | server/models/destinationPaths.ts:32-35 | From `src` a folder, with a plain interfaces name and no file in the way, both default chains are created and end in folders. |
| Destinations.DefaultCommons | server/models/destinationPaths.ts:33 | With a plain folder name, `commons` is exactly `src`, then `common`, then that name. |
| Destinations.NewAsWritten | server/models/destinationPaths.ts:20-38 | The constructor as written. Without a destination, the defaults apply. With one, either its validation error (the tree unchanged) or the four fixed subfolders of the validated folder, directly below the joined destination and all existing. The interfaces name is always `interfaces`. The tree only grows. |
| Destinations.New | server/models/destinationPaths.ts:20-38 | The constructor with the corrected inside check. Everything `NewAsWritten` states, and in addition every one of the four folders is inside the root. |
| Destinations.NewAsWrittenSucceeds | server/models/destinationPaths.ts:20-38 | With a destination that starts with the root string and violates no core rule, a root that is a folder, and no file on the way to the destination or at its four subfolders, the constructor as written succeeds and the four subfolders are folders. |
| Destinations.NewSucceeds | server/models/destinationPaths.ts:20-38 | The same success condition for the corrected constructor, with the destination inside the root by components; the four subfolders are then folders. |
| Destinations.ReRooting | server/models/destinationPaths.ts:41-45 | An absolute destination `<root>/<route>` and the relative `<route>` give the same result, in both versions of the check. |
| Destinations.CandidatesAgree | server/models/destinationPaths.ts:41-45 | The two candidates have the same components and the same trimmed form, and both start with the root or neither does. |
| Destinations.SiblingCandidate | server/models/destinationPaths.ts:41-45 | For root `/p`, the relative destination `../g` joins to `/g`. |
| Destinations.SiblingNotCore | server/models/destinationPaths.ts:67-107 | A sibling folder `/g` of the root `/p` violates no core-folder rule. |
| Destinations.SiblingRoute | server/models/destinationPaths.ts:51-52 | The route from `/p` to `/g` is `..` then `g`. |
| Destinations.SiblingCreated | server/schemas-to-ts/fileHelpers.ts:17-27 | Walking `..` then `g` from `/p` creates and returns `/g`. |
| Destinations.SiblingEscapesRoot | server/models/destinationPaths.ts:45-61 | For root `/p` and a plain name `g` that extends `p`, the code as written accepts `../g` and creates `/g` outside the project. The corrected check rejects it and creates nothing. |
| Destinations.NewSiblingEscapesRoot | server/models/destinationPaths.ts:20-61 | For root `/p`, a plain name `g` that extends `p`, and destination `../g`, the constructor as written succeeds and puts `commons` at `/g/common`, outside the project. The corrected constructor returns the "not inside" error and leaves the tree alone. |
| FileHelpers.NormalizeWithoutTrailingSeparator | server/schemas-to-ts/fileHelpers.ts:8-15 | The result is a prefix of the normalised path, at most one character shorter. It differs from it exactly when the normalised path ends with a separator. |
| FileHelpers.TrimmedShape | server/schemas-to-ts/fileHelpers.ts:8-15 | `""` gives `.`. Otherwise the result is the resolved segments rendered without a trailing separator, `""` for `/`, and `.` for an empty relative path. |
| FileHelpers.TrimmedHasNoTrailingSeparator | server/schemas-to-ts/fileHelpers.ts:8-15 | No result ends with a separator. |
| FileHelpers.TrimmedIdempotent | server/schemas-to-ts/fileHelpers.ts:8-15 | Trimming a non-empty trimmed path again changes nothing. |
| FileHelpers.TrimmedComponents | server/schemas-to-ts/fileHelpers.ts:8-15 | Trimming names the same folder as the original path. |
| FileHelpers.MakeDirectoryGrows | server/schemas-to-ts/fileHelpers.ts:21-22 | A successful `mkdirSync` keeps every existing path and every file, and puts no file where there was none. |
| FileHelpers.EnsureFolderPathExistRecursive | server/schemas-to-ts/fileHelpers.ts:17-27 | With no subfolders, the start folder is returned and nothing changes. The tree only grows. On success every intermediate folder exists, the result is the last folder of the chain, whatever the tree held, and exists. For subfolders without a separator, it is the start folder resolved through the subfolders. |
| FileHelpers.EnsureFolderPathExistRecursiveSucceeds | server/schemas-to-ts/fileHelpers.ts:17-27 | From a start that is a folder, with no file at any folder of the chain, the call succeeds and every folder of the chain exists. |
| FileHelpers.FoldersComponents | server/schemas-to-ts/fileHelpers.ts:19-25 | The i-th folder of the chain names the start resolved through the first i+1 subfolders. |
| FileHelpers.EnsureFolderPathExistRecursiveNoOp | server/schemas-to-ts/fileHelpers.ts:19-24 | When every folder of the chain already exists, the tree is unchanged and the call succeeds. |
| FileHelpers.EnsureFolderPathExistRecursiveIdempotent | server/schemas-to-ts/fileHelpers.ts:17-27 | A second call after a successful one changes nothing and returns the same folder. |
| FileHelpers.WriteInterfaceFile | server/schemas-to-ts/fileHelpers.ts:46-63 | On success it returns `join(folder, fileName)`, which then holds exactly the content. A file already holding that content leaves the tree unchanged. It fails exactly when the target is a folder or its parent is not a folder, and then changes nothing. No path outside the target changes. |
| FileHelpers.StrapiDirectoriesNesting | server/schemas-to-ts/fileHelpers.ts:133-161 | `app.root` is the trimmed root and names the same folder. `src` is a child of the root, and `api`, `components` and `extensions` are children of `src`. |
| FileHelpers.LayoutNesting | server/schemas-to-ts/fileHelpers.ts:135-158 | `src`, `config`, `dist` and `public` are direct children of the root. `api`, `components`, `extensions`, `policies` and `middlewares` are direct children of `src`. |
| FileHelpers.LayoutStartsWithRoot | server/schemas-to-ts/fileHelpers.ts:135-158 | Every layout folder other than the root starts with the root followed by a separator. |
| FileHelpers.AppFoldersStartWithRoot | server/schemas-to-ts/fileHelpers.ts:133-161 | Every `app.*` path starts with `app.root`, except when `app.root` is `.`: `join('.', 'src')` is `src`, which does not start with `.`. |
| Cleanup.FirstLine | server/schemas-to-ts/fileHelpers.ts:122 | The first line is a prefix of the content, holds no line feed, and ends at the first line feed or at the end. |
| Cleanup.DeleteUnnecessaryGeneratedInterfaces | server/schemas-to-ts/fileHelpers.ts:81-131 | A skipped root changes nothing. Reading fails exactly when the root is not skipped and is either the empty path `""` or not a folder, and then nothing changes. Paths outside the root are untouched. On success the root's listing is a pruning of the original, and when no folder the walk enters holds a kept file, no deletable file survives in any folder that is not skipped. |
| Cleanup.SearchEntriesPruned | server/schemas-to-ts/fileHelpers.ts:106-117 | The walk only drops deletable files: `.ts` files with the header first line that are not kept. It never enters excluded folders or folders whose name starts with `.`. It never drops folders, and it keeps the order. |
| Cleanup.VisitPruned | server/schemas-to-ts/fileHelpers.ts:96-118 | A visited folder is a pruning of the original. Skipped folders are left exactly as they were. |
| Cleanup.KeptFileEndsListing | server/schemas-to-ts/fileHelpers.ts:110-113 | Meeting a kept file ends the walk of that listing. The kept file and every later entry are left as they were. |
| Cleanup.SearchEntriesSweeps | server/schemas-to-ts/fileHelpers.ts:106-127 | When no folder the walk enters holds a kept file, no deletable file survives in any folder that is not skipped. |
| Cleanup.SearchEntriesIdempotent | server/schemas-to-ts/fileHelpers.ts:106-117 | Walking a listing a second time changes nothing. |
| Cleanup.VisitIdempotent | server/schemas-to-ts/fileHelpers.ts:96-118 | Searching a folder a second time changes nothing. |
| Cleanup.PrunedRefl | server/schemas-to-ts/fileHelpers.ts:106-117 | Leaving a listing as it is counts as a pruning. |
| IndexFiles.ExportLines | server/schemas-to-ts/fileHelpers.ts:199-219 | There are at most as many export lines as entries. |
| IndexFiles.NoExportLines | server/schemas-to-ts/fileHelpers.ts:203-222 | A listing has no export line exactly when no entry is an exportable file or a folder with an `index.ts`. |
| IndexFiles.ExportLinesAppend | server/schemas-to-ts/fileHelpers.ts:203-219 | Export lines follow the listing order. The lines of two listings in a row are their lines in turn. |
| IndexFiles.ExportLineAt | server/schemas-to-ts/fileHelpers.ts:203-219 | Every entry that exports contributes its line at its own place in the listing. |
| IndexFiles.ModuleNameExtname | server/schemas-to-ts/fileHelpers.ts:216 | For a file name, the module name followed by the extension is the name. |
| IndexFiles.ExportedModuleName | server/schemas-to-ts/fileHelpers.ts:211-217 | An exported `x.ts` or `x.tsx` is re-exported as `x`. |
| IndexFiles.IndexContentTerminated | server/schemas-to-ts/fileHelpers.ts:223 | The index content is every export line followed by its own line feed. |
| IndexFiles.WriteIndex | server/schemas-to-ts/fileHelpers.ts:221-227 | With no lines nothing is written, so an old `index.ts` stays. Otherwise `index.ts` holds exactly the joined lines. Writing fails exactly when `index.ts` is a folder, and then nothing changes. No other entry changes. |
| IndexFiles.ExportLinesSetIndex | server/schemas-to-ts/fileHelpers.ts:212-225 | Writing the folder's own `index.ts` does not change its export lines. |
| IndexFiles.IndexChildren | server/schemas-to-ts/fileHelpers.ts:181-187 | Processing the subfolders keeps the names and their order. Files stay as they were, and folders stay folders. |
| IndexFiles.IndexListingKeepsOrMakesIndex | server/schemas-to-ts/fileHelpers.ts:178-227 | After a folder's pass it has an `index.ts` exactly when it had one before or it has export lines. |
| IndexFiles.ParentExportsChild | server/schemas-to-ts/fileHelpers.ts:180-210 | A parent re-exports a subfolder exactly when the subfolder's own pass produced or kept an `index.ts`. |
| IndexFiles.IndexListingIndexed | server/schemas-to-ts/fileHelpers.ts:178-195 | A successful pass leaves every folder with exports holding an `index.ts` that contains exactly its lines. |
| IndexFiles.IndexedFixed | server/schemas-to-ts/fileHelpers.ts:178-232 | A tree in which every folder is indexed is left unchanged by the pass. |
| IndexFiles.IndexListingIdempotent | server/schemas-to-ts/fileHelpers.ts:178-232 | A second pass after a successful one changes nothing. |
| IndexFiles.IndexListingWrites | server/schemas-to-ts/fileHelpers.ts:178-227 | A folder's pass writes only `index.ts` files: names and order stay, other files are unchanged, and at most one `index.ts` is added at the end of a listing. This holds also when the pass stops at a failure. |
| IndexFiles.IndexChildrenWrites | server/schemas-to-ts/fileHelpers.ts:181-187 | Processing the subfolders writes only `index.ts` files below the listing and adds no entry to it. |
| IndexFiles.IndexListingOutcome | server/schemas-to-ts/fileHelpers.ts:178-227 | A folder's pass fails exactly when some folder in it, itself included, has export lines and a folder called `index.ts`. On success it has export lines exactly when it holds an exportable file, or a subfolder that has an `index.ts` or gets export lines. |
| IndexFiles.IndexChildrenOutcome | server/schemas-to-ts/fileHelpers.ts:181-210 | Processing the subfolders fails exactly when one of them is blocked. On success the listing's export lines are read off the listing before the pass. |
| IndexFiles.GenerateIndexFilesForPath | server/schemas-to-ts/fileHelpers.ts:178-195 | A root that is `""` or not a folder fails and changes nothing. On success the root's subtree is indexed. Paths outside the root are untouched. Inside the root only `index.ts` files are written. It fails exactly when the root is `""` or not a folder, or some folder with export lines has a folder called `index.ts`. |
| IndexFiles.GenerateIndexFilesForPathIdempotent | server/schemas-to-ts/fileHelpers.ts:178-195 | Generating a root's indexes twice gives the same tree as once. |
| IndexFiles.GenerateIndexFilesRecursively | server/schemas-to-ts/fileHelpers.ts:163-176 | The four steps equal the fold over the set roots, in the order commons, apis, components, extensions. With no root set, nothing changes. |
| IndexFiles.ThenRootProcesses | server/schemas-to-ts/fileHelpers.ts:163-176 | Each `if (destinationPaths.x)` step extends the fold by the root it names, if it names one. |
| IndexFiles.ProcessRootsStops | server/schemas-to-ts/fileHelpers.ts:163-194 | The first failing root ends the pass. The roots after it are not processed. |
| FileSystem.MakeDirectory | server/schemas-to-ts/fileHelpers.ts:22 | A successful `mkdirSync` creates a folder that did not exist, and changes no path outside it. It fails exactly when the path exists (then with `EEXIST`) or its parent is not a folder. A failure changes nothing. |

## Left out

- `getRelativePath` (fileHelpers.ts:65-79): it depends on `fs.statSync` of two arbitrary paths and on `path.dirname`, and nothing in the modelled core calls it.
- `folderExists` and `fileExists` (fileHelpers.ts:29-44) are not separate members. They appear as `FileSystem.IsDir` and as a lookup of a `File` node.
- server/register.ts wires the plugin into Strapi and calls the external interface converter. It has no logic of its own here.
- Logging, error messages and their text are left out. The errors are an enumeration: not inside, the violated core folder, or the filesystem error.
- `CommonHelpers.compareIgnoringLineBreaks` and `CommonHelpers.headerComment` are defined elsewhere. The comparison of a first line with the header is a parameter, `isHeader`.
- The working directory is not modelled. `path.resolve` treats a relative path as if the working directory were `/`.
- Filesystem failures other than the structural ones are left out: permissions, a full disk, symbolic links. Directory listings are assumed to hold distinct names.
- The `dist` fields other than `dist.root` are left out, because the plugin leaves them undefined.
- The other path separators of Windows are left out. Only `/` is modelled.
- Destinations.DefaultFolders: the components of `commons` are stated only for an interfaces folder name without a separator.
- Destinations.New: on success the four returned folders exist, but they are stated to be folders only under the success condition of `NewSucceeds`; a file already in their place is accepted, as `existsSync` accepts it. Which folders were added is not stated.
- Cleanup.DeleteUnnecessaryGeneratedInterfaces: on success, only the root's listing is related to the original (by `Pruned`). The ancestors of the root are not described beyond staying in place.

## Findings

| source | as written | input that shows it | evidently intended | confidence | as-written member | corrected member |
|---|---|---|---|---|---|---|
| server/models/destinationPaths.ts:45-61 | the destination counts as inside the project when its path string starts with the root string | root `/proj` with `destinationFolder` `../proj-gen` (or `/proj-gen`): the joined path `/proj-gen` starts with `/proj`, passes every check, and `/proj-gen` is created next to the project | a destination is inside the project when it is the root or lies below it, compared component by component | not executed | Destinations.SiblingEscapesRoot | Destinations.GetFinalDestinationFolder |
| server/models/destinationPaths.ts:20-38 | the constructor creates `common`, `api`, `components` and `extensions` below any destination the inside check lets through | root `/proj` with `destinationFolder` `../proj-gen`: the constructor succeeds with `commons` at `/proj-gen/common`, outside the project | the constructor returns the "not inside" error and creates nothing | not executed | Destinations.NewSiblingEscapesRoot | Destinations.New |

`Destinations.GetFinalDestinationFolderAsWritten` models the check as written, and
`Destinations.NewAsWritten` is the constructor built on it. `Destinations.New` uses
the corrected `Destinations.GetFinalDestinationFolder`.
