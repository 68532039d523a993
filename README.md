# Course-builder extension core, modelled in Dafny

This project models three small pieces of logic from a VS Code extension for
writing course posts and proves properties about them:

- **The `builder:` temporary file store** (`TempFileSystemProvider`,
  `src/lib/temp-filesystem-provider.ts`). Every `builder:` URI is served
  from the sandbox directory `~/.vscode-course-builder-temp`.
  - The provider's state is a class: the sandbox path, the disk it works on
    and the change events it has fired.
  - The disk holds a map from paths to byte contents plus a set of
    directories. It is kept a tree: the root exists, a path is never both a
    file and a directory, and every entry's parent is a directory.
  - Node's `fs` calls are pure functions from one disk to a disk or an
    errno. They follow Node 16+ on Linux.
  - Node's `path.join`/`path.normalize` is a segment resolver: empty and `.`
    segments vanish, `..` pops, and the root stays the root.
  - Each provider method follows the source's steps, with two corrections
    (see "## Findings"):
    - every method guards its URIs with the corrected sandbox check
      (`Paths.GetFilePath`), which compares path segments. The source's
      string-prefix check also admits a sibling such as
      `~/.vscode-course-builder-temp-x`, which the model's methods refuse with
      FileNotFound;
    - `writeFile` refuses the sandbox directory itself as its target, because
      its `.tmp` sibling lies outside the sandbox.
  - Each method's contract pins down the outcome, the error the caller sees,
    the new disk and the events fired.
- **The video panel** (`src/components/video.tsx`). The model covers:
  - the `useReducer` transition function and its initial state;
  - the effect that chooses the action to dispatch from the query status,
    the video resource, the id of a new upload and the mp4 probe;
  - what each view renders, including the Replace and Cancel buttons and
    the `isReplacement` flag.
- **The tag selector** (`src/components/tag-selector.tsx`). The model
  covers:
  - toggling and removing selected tags, and the callbacks made;
  - the tags offered for a query: a blank query gives the first ten of a
    stable sort by popularity; otherwise a case-insensitive substring
    search;
  - the check mark and the summary label.

Files:

- `wrappers.dfy`: Option/Result/Outcome.
- `strings.dfy`: `startsWith`, shared by the path guard and the tag search.
- `paths.dfy`: path splitting, normalisation, rendering and the sandbox
  guard.
- `node_fs.dfy`: the disk and Node's `fs` calls.
- `temp_filesystem_provider.dfy`: the provider class.
- `video.dfy`: the video panel.
- `tag_selector.dfy`: the tag selector.

Where the code and what its interfaces announce disagree (VS Code's
`FileSystemProvider` API documentation for the provider, the upload form's
declared properties for the panel), the model follows the code:

- `writeFile` with `create = false` on a missing file in an existing
  directory creates the file. FileNotFound is only raised when Node itself
  reports ENOENT, which happens when the parent directory is missing.
- `writeFile` refuses an existing target with FileExists unless both
  `create` and `overwrite` are set, not only when `overwrite` is unset.
- `createDirectory` and `rename` fire no change event.
- `stat` reports FileNotFound only for an ENOENT from Node. Every other
  failure reads as Unavailable, including the guard's own refusal.
- `VideoUploadForm` does not declare the `onCancel` and `onUploaded`
  properties the panel passes (`src/video-upload/video-upload-form.tsx:7-17`).
  The Cancel callback is therefore modelled as what the panel offers; no
  button of the form invokes it.

## Model

| member | source | states |
|---|---|---|
| Paths.Split | src/lib/temp-filesystem-provider.ts:27 | Splitting a string on `/` yields at least one segment, and no segment contains `/`. |
| Paths.JoinSplit | src/lib/temp-filesystem-provider.ts:27 | Joining the segments of a string with `/` gives back the string. |
| Paths.SplitAround | src/lib/temp-filesystem-provider.ts:27 | `path.join` concatenates segment lists: the segments of `a + "/" + b` are those of `a` followed by those of `b`. |
| Paths.Resolve | src/lib/temp-filesystem-provider.ts:27 | Resolving segments against a normal path always gives a normal path: no empty, `.` or `..` segment remains. |
| Paths.Normalize | src/lib/temp-filesystem-provider.ts:27 | `path.normalize` always gives a normal path, and a path that is already normal is left as it is. |
| Paths.ResolveAppend | src/lib/temp-filesystem-provider.ts:27 | Resolving a concatenation is resolving the first part and then the second. |
| Paths.ResolveNames | src/lib/temp-filesystem-provider.ts:27 | Plain names resolve to themselves, appended to the directory. |
| Paths.NormalizeIdempotent | src/lib/temp-filesystem-provider.ts:27 | Normalising a normalised path changes nothing. |
| Paths.RenderRoundTrip | src/lib/temp-filesystem-provider.ts:27 | A normal path's string form normalises back to the same path, the root included. |
| Paths.JoinNormalize | src/lib/temp-filesystem-provider.ts:27 | `normalize(join(dir, rest))` is a normal path. When `rest` is plain names, it is `dir` followed by those names. |
| Paths.JoinNormalizeResolves | src/lib/temp-filesystem-provider.ts:27 | `normalize(join(dir, rest))` equals resolving the segments of `rest` against `dir`. |
| Paths.BaseDir | src/lib/temp-filesystem-provider.ts:15 | The sandbox is the normalised home directory followed by `.vscode-course-builder-temp`. It is a normal, non-root path. |
| Paths.GetFilePath | src/lib/temp-filesystem-provider.ts:26-33 | The corrected guard admits a URI path exactly when the resolved path lies in the sandbox by segments, and then returns that resolved path. |
| Paths.GetFilePathStartsWithBase | src/lib/temp-filesystem-provider.ts:29 | Whatever the corrected guard admits starts with the sandbox path as a string, and the guard as written returns the same path for it. |
| Paths.GetFilePathAsWritten | src/lib/temp-filesystem-provider.ts:26-33 | The guard as written admits a URI path exactly when the resolved path, as a string, starts with the sandbox string. It then returns the resolved path. |
| Paths.AsWrittenGuardAdmitsSibling | src/lib/temp-filesystem-provider.ts:29 | For every non-empty suffix, the guard as written admits `/../.vscode-course-builder-temp<suffix>/f`. That path lies outside the sandbox, and the corrected guard refuses it. |
| Paths.TempSibling | src/lib/temp-filesystem-provider.ts:90 | The temporary path is a different path with the same parent. |
| Paths.TempSiblingRender | src/lib/temp-filesystem-provider.ts:90 | The temporary path's string form is the target's string form followed by `.tmp`. |
| NodeFs.MissingError | src/lib/temp-filesystem-provider.ts:51 | A failed lookup reports ENOENT or ENOTDIR, never any other code. |
| NodeFs.AncestorsAreDirs | src/lib/temp-filesystem-provider.ts:44 | On a tree, every proper ancestor of an existing entry is a directory. |
| NodeFs.ExistsSync | src/lib/temp-filesystem-provider.ts:20 | `existsSync` holds exactly when `statSync` would succeed. |
| NodeFs.StatSync | src/lib/temp-filesystem-provider.ts:44 | `statSync` succeeds exactly on existing entries. It reports a directory exactly for directories, and a file's size is its byte count. Otherwise it fails with the lookup error. |
| NodeFs.ReadFileSync | src/lib/temp-filesystem-provider.ts:81 | `readFileSync` returns a file's bytes exactly for regular files. A directory gives EISDIR; any other path gives the lookup error. |
| NodeFs.WriteFileSync | src/lib/temp-filesystem-provider.ts:94 | `writeFileSync` succeeds exactly when the parent is a directory and the path is not one. It then sets exactly that file's bytes and leaves the directories alone. |
| NodeFs.UnlinkSync | src/lib/temp-filesystem-provider.ts:127 | `unlinkSync` succeeds exactly on regular files and removes only that file. A directory gives EISDIR. |
| NodeFs.MkdirRecursive | src/lib/temp-filesystem-provider.ts:75 | `mkdirSync` with `recursive` succeeds exactly when no prefix of the path is a file. It then adds every prefix as a directory, and it never fails with ENOENT. |
| NodeFs.RemoveSubtree | src/lib/temp-filesystem-provider.ts:125 | Nothing at or below the root remains, and every entry elsewhere is unchanged. |
| NodeFs.RmRecursiveForce | src/lib/temp-filesystem-provider.ts:125 | `rmSync` with `recursive` and `force` succeeds on an existing path or a plain ENOENT. It removes the subtree or changes nothing, and otherwise fails with ENOTDIR. |
| NodeFs.RmdirRecursive | src/lib/temp-filesystem-provider.ts:152 | `rmdirSync` with `recursive` succeeds exactly on directories and removes the subtree. A file gives ENOTDIR; a missing path gives the lookup error. |
| NodeFs.NamesExact | src/lib/temp-filesystem-provider.ts:62 | A name is listed in a directory exactly when the path one name below exists. |
| NodeFs.ReaddirSync | src/lib/temp-filesystem-provider.ts:62 | `readdirSync` succeeds exactly on directories and lists their names. A file gives ENOTDIR. |
| NodeFs.MoveFile | src/lib/temp-filesystem-provider.ts:147 | Moving a regular file removes it from its old path and puts its bytes at the new path, replacing a file there. No directory changes, and nothing else is touched. |
| NodeFs.MoveDir | src/lib/temp-filesystem-provider.ts:147 | Moving a directory to a free place removes it and everything below it from the old place. Below the new place lies exactly what lay below the old one, with the same contents. Everything outside both places is unchanged. |
| NodeFs.RenameSync | src/lib/temp-filesystem-provider.ts:147 | `renameSync` succeeds exactly when the source exists, the target's parent is a directory, and the move is allowed. A file may replace a file or take a free name. A directory may replace an empty directory or take a free name, and never moves into itself. Each refusal gives its Linux code, with both parent paths walked before the source is looked up: the parents' lookup errors, then ENOENT for a missing source, then EINVAL, ENOTEMPTY, EISDIR or ENOTDIR. On success the source is gone, its subtree lies below the target with the same contents, and nothing else changes. |
| NodeFs.RenameWalksParentsFirst | src/lib/temp-filesystem-provider.ts:147 | Renaming a missing `/x` to `/f/y`, where `/f` is a regular file, fails with ENOTDIR for the target's parent rather than ENOENT for the source. |
| NodeFs.WriteFileSyncKeepsTree | src/lib/temp-filesystem-provider.ts:94 | A successful write keeps the disk a tree. |
| NodeFs.UnlinkSyncKeepsTree | src/lib/temp-filesystem-provider.ts:127 | A successful unlink keeps the disk a tree. |
| NodeFs.MkdirRecursiveKeepsTree | src/lib/temp-filesystem-provider.ts:75 | A successful `mkdir -p` keeps the disk a tree. |
| NodeFs.RemoveSubtreeKeepsTree | src/lib/temp-filesystem-provider.ts:125 | Removing a subtree below the root keeps the disk a tree. |
| NodeFs.RmRecursiveForceKeepsTree | src/lib/temp-filesystem-provider.ts:125 | A successful forced recursive removal keeps the disk a tree. |
| NodeFs.RmdirRecursiveKeepsTree | src/lib/temp-filesystem-provider.ts:152 | A successful recursive `rmdir` keeps the disk a tree. |
| NodeFs.MoveDirKeepsTree | src/lib/temp-filesystem-provider.ts:147 | Moving a directory into a free place outside itself keeps the disk a tree. |
| NodeFs.RenameSyncKeepsTree | src/lib/temp-filesystem-provider.ts:147 | A successful rename keeps the disk a tree. |
| TempFs.ToFileSystemError | src/lib/temp-filesystem-provider.ts:51-55 | A caught error becomes FileNotFound exactly when it is Node's ENOENT; otherwise it becomes Unavailable. |
| TempFs.EnsureDir | src/lib/temp-filesystem-provider.ts:19-23 | The sandbox is created with its ancestors unless it exists. Afterwards it exists, no file has changed, and the only possible failure is not ENOENT. |
| TempFs.MissingErrorSibling | src/lib/temp-filesystem-provider.ts:94 | A lookup of the `.tmp` sibling fails exactly like a lookup of the target. |
| TempFs.RecreateBase | src/lib/temp-filesystem-provider.ts:152-153 | Once the sandbox subtree is removed, creating the sandbox again cannot fail. |
| TempFs.TempFileSystemProvider.Target | src/lib/temp-filesystem-provider.ts:26-33 | The path a URI resolves to lies in the sandbox (the sandbox itself included) and is below the root. The `.tmp` sibling of the sandbox itself does not lie in it; see "## Findings". |
| TempFs.TempFileSystemProvider.constructor | src/lib/temp-filesystem-provider.ts:13-17 | The provider serves `BaseDir(home)`, has fired nothing, and the disk is the disk after `ensureBaseDir`. |
| TempFs.TempFileSystemProvider.EnsureBaseDir | src/lib/temp-filesystem-provider.ts:19-23 | The method changes the disk exactly as `EnsureDir` says and reports its failure. |
| TempFs.TempFileSystemProvider.Stat | src/lib/temp-filesystem-provider.ts:40-56 | The method first makes sure the sandbox exists. It then reports a file with its size, or a directory. A missing entry gives FileNotFound only for ENOENT. A refused URI, an ENOTDIR, or a failure to create the sandbox gives Unavailable. |
| TempFs.TempFileSystemProvider.ReadDirectory | src/lib/temp-filesystem-provider.ts:59-70 | A refused URI gives FileNotFound. A directory yields exactly its children's names, each typed Directory or File as the child is. Other failures are Node's errors. |
| TempFs.TempFileSystemProvider.CreateDirectory | src/lib/temp-filesystem-provider.ts:72-76 | A refused URI gives FileNotFound. Otherwise the directory and its ancestors are created when no prefix is a file; nothing else changes and no event fires. |
| TempFs.TempFileSystemProvider.ReadFile | src/lib/temp-filesystem-provider.ts:78-82 | A refused URI gives FileNotFound. Otherwise the result is exactly the file's bytes; a directory gives EISDIR and a missing path its lookup error. |
| TempFs.WriteRecover | src/lib/temp-filesystem-provider.ts:105-117 | The `catch` of `writeFile` always fails and leaves no `.tmp` sibling behind. The error is FileNotFound exactly when the caught error was FileNotFound or a Node ENOENT without `create`; otherwise it is the caught error itself. |
| TempFs.WriteSteps | src/lib/temp-filesystem-provider.ts:89-119 | The disk steps of `writeFile` never change a directory. They touch no path other than the target and its `.tmp` sibling. |
| TempFs.WriteStepsKeepsTree | src/lib/temp-filesystem-provider.ts:89-119 | Every path through `writeFile` leaves the disk a tree. |
| TempFs.WriteStepsPass | src/lib/temp-filesystem-provider.ts:89-104 | A write succeeds exactly when the parent is a directory, neither the target nor its `.tmp` sibling is one, and the target is absent or both `create` and `overwrite` hold. Then the target holds exactly the new bytes, the sibling is gone and no directory changed. |
| TempFs.WriteStepsFail | src/lib/temp-filesystem-provider.ts:92-117 | A failed write removes the `.tmp` sibling and changes nothing else. A directory at the sibling or the target gives EISDIR. A missing parent gives the lookup error, or FileNotFound for ENOENT without `create`. An existing target without `create && overwrite` gives FileExists. |
| TempFs.DotUriIsSandbox | src/lib/temp-filesystem-provider.ts:26-33 | Both guards admit the URI path `/.` and resolve it to the sandbox itself, with no trailing separator. |
| TempFs.WriteOnSandboxRemovesOutsideFile | src/lib/temp-filesystem-provider.ts:89-117 | As written, `writeFile` on `builder:/.` writes the sandbox's `.tmp` sibling, which lies outside the sandbox. A file already there is destroyed, and the write fails anyway. |
| TempFs.TempFileSystemProvider.WriteFile | src/lib/temp-filesystem-provider.ts:84-119 | A URI the guard refuses, or one that resolves to the sandbox itself, gives FileNotFound before anything is touched. Otherwise the outcome and the new disk are those of the write steps above. Exactly one Changed event fires, and only on success. Nothing outside the sandbox changes. |
| TempFs.TempFileSystemProvider.Delete | src/lib/temp-filesystem-provider.ts:121-136 | A refused URI gives FileNotFound. A recursive delete succeeds on an existing or plainly missing path: nothing at or below it remains, the rest is unchanged, and one Deleted event fires. A plain delete removes exactly a regular file. Failures change nothing, fire nothing and give FileNotFound only for ENOENT. |
| TempFs.TempFileSystemProvider.Rename | src/lib/temp-filesystem-provider.ts:138-148 | Each URI is guarded in turn, and a refused one gives FileNotFound for itself. Then the disk changes exactly as `renameSync` says, and no event fires. |
| TempFs.TempFileSystemProvider.ClearAll | src/lib/temp-filesystem-provider.ts:150-160 | When the sandbox is a directory, it afterwards exists and is empty, everything outside it is unchanged, and one Deleted event for `builder:/` fires. Otherwise Node's error is raised and nothing changes. |
| TempFs.WriteThenRead | src/lib/temp-filesystem-provider.ts:78-104 | After a successful write, reading the same URI returns the bytes written, the `.tmp` sibling does not exist, and exactly one Changed event was added. |
| VideoPanel.Reduce | src/components/video.tsx:31-48 | Every action yields a consistent state whose view is never `empty`. The action alone decides the view. Error and processing carry the action's message, `SET_EMPTY` gives the upload view with "No Video", and `SET_UPLOAD` gives an empty message. |
| VideoPanel.InitialIsConsistent | src/components/video.tsx:60-63 | The initial state is `loading` with "Loading..." and is consistent. |
| VideoPanel.Run | src/components/video.tsx:60-63 | The `useReducer` state after a sequence of dispatches: the starting state if nothing was dispatched, and otherwise a consistent state, whatever the start. |
| VideoPanel.RunKeepsConsistent | src/components/video.tsx:31-48 | Any sequence of dispatched actions keeps the panel consistent, so it never shows `empty`. |
| VideoPanel.RunIsLastAction | src/components/video.tsx:31-48 | After a non-empty sequence of actions, the state is what the last action gives from any state. |
| VideoPanel.ReduceIdempotent | src/components/video.tsx:31-48 | Dispatching an action twice gives the same state as dispatching it once. |
| VideoPanel.SelectAction | src/components/video.tsx:82-129 | The effect selects as follows. Pending selects loading, whatever else holds. Nothing is dispatched exactly for a deleted resource. Ready, upload, loading and error are each selected under an exact condition on the inputs. Each resource state and the missing-resource cases select their own message. |
| VideoPanel.Settle | src/components/video.tsx:82-129 | After the effect, a consistent state stays consistent and pending resets to the initial state. The player shows exactly for a ready resource whose mp4 is ready, or for a deleted one while it already showed. |
| VideoPanel.PlayerSource | src/components/video.tsx:144 | The player's URL is the mux stream prefix, the playback id, then `/high.mp4`, and the id can be read back from it. |
| VideoPanel.RenderContent | src/components/video.tsx:131-180 | Each view renders its own content, and the message panel shows the state's message. Replace leads to the upload view. Cancel is offered exactly when a resource exists and leads to the ready view. The form is a replacement exactly when the playback id is non-empty. |
| VideoPanel.ReplaceThenCancel | src/components/video.tsx:150-169 | From the player, Replace shows the upload form. With a resource, the form's Cancel shows the player again. |
| VideoPanel.ConsistentNeverEmptyPanel | src/components/video.tsx:171-178 | A consistent state shows a message panel only for the error and processing views. |
| TagSelector.RemoveId | src/components/tag-selector.tsx:59 | The filter keeps exactly the tags with another id and never adds one. |
| TagSelector.RemoveIdAppend | src/components/tag-selector.tsx:59 | The filter works piecewise over a concatenation, so it preserves relative order. |
| TagSelector.RemoveIdAbsent | src/components/tag-selector.tsx:59 | Removing an id no selected tag carries changes nothing. |
| TagSelector.RemoveIdIdempotent | src/components/tag-selector.tsx:59 | Removing the same id twice is the same as removing it once. |
| TagSelector.ToggleTag | src/components/tag-selector.tsx:49-51 | Selecting flips whether the id is selected. An absent tag is appended at the end; a present id loses every tag that carries it. Tags with other ids are unaffected. |
| TagSelector.ToggleTwice | src/components/tag-selector.tsx:48-56 | Selecting an unselected tag twice restores the original selection. |
| TagSelector.HandleTagSelect | src/components/tag-selector.tsx:48-56 | The handler stores the toggled list, passes that list to `onChange`, and then calls `onTagSelect` with the tag. |
| TagSelector.HandleTagRemove | src/components/tag-selector.tsx:58-63 | The handler stores the id-filtered selection, so the RemoveId lemmas apply to it: order kept, idempotent. No tag with the id remains, and other tags are kept. An absent id changes nothing. `onChange` gets the new list before `onTagRemove` is called. |
| TagSelector.IsChecked | src/components/tag-selector.tsx:135 | The check mark shows exactly when some selected tag has the offered tag's id. |
| TagSelector.CheckMarkFollowsHandlers | src/components/tag-selector.tsx:135 | Choosing an offered tag flips its check mark, and removing its badge clears it. |
| TagSelector.RankOf | src/components/tag-selector.tsx:72-73 | The comparator falls back to `Infinity`: a missing or zero `popularity_order` ranks as infinity. Any other order ranks as itself. |
| TagSelector.WithRank | src/components/tag-selector.tsx:70-74 | A rank's tags are exactly the tags of that rank. |
| TagSelector.SortedPairwise | src/components/tag-selector.tsx:70-74 | In a sorted list, every tag ranks no worse than every later one. |
| TagSelector.Insert | src/components/tag-selector.tsx:70-74 | Inserting into a sorted list keeps it sorted and adds exactly the one tag. |
| TagSelector.InsertWithRank | src/components/tag-selector.tsx:70-74 | Insertion keeps each rank's tags in order, with the new tag ahead of its equals. |
| TagSelector.SortByPopularity | src/components/tag-selector.tsx:68-74 | The sorted copy is sorted by `popularity_order`, missing or 0 last, and is a permutation of the input. |
| TagSelector.SortIsStable | src/components/tag-selector.tsx:70-74 | Tags of equal rank, including all the missing or 0 ones, keep their input order. |
| TagSelector.SortedIsUnique | src/components/tag-selector.tsx:70-74 | Two sorted lists with the same tags of each rank in the same order are equal. |
| TagSelector.Popular | src/components/tag-selector.tsx:66-75 | At most ten tags are shown, sorted and taken from the input. They are the head of the sorted copy, and no tag left out ranks better. |
| TagSelector.PopularIsDetermined | src/components/tag-selector.tsx:66-75 | The popular tags are the head of any rank-sorted arrangement that keeps ties in input order. |
| TagSelector.TrimStart | src/components/tag-selector.tsx:66 | Leading trimming removes only JavaScript white space, and what is left does not start with any. |
| TagSelector.TrimEnd | src/components/tag-selector.tsx:66 | Trailing trimming removes only JavaScript white space, and what is left does not end with any. |
| TagSelector.Trim | src/components/tag-selector.tsx:66 | `trim` never lengthens the query. What is left neither starts nor ends with white space. |
| TagSelector.TrimEmptyIffBlank | src/components/tag-selector.tsx:66 | A query trims to nothing exactly when every character is white space. |
| TagSelector.Lower | src/components/tag-selector.tsx:80 | Lower-casing maps each character separately and keeps the length. |
| TagSelector.Includes | src/components/tag-selector.tsx:80 | `includes` never finds a needle longer than the string, and always finds the empty one. |
| TagSelector.IncludesAt | src/components/tag-selector.tsx:80 | `includes` holds exactly when the needle occurs at some offset. |
| TagSelector.Matching | src/components/tag-selector.tsx:79-81 | The search keeps exactly the tags whose lower-cased label contains the lower-cased query. |
| TagSelector.MatchingAppend | src/components/tag-selector.tsx:79-81 | The search works piecewise over a concatenation, so it keeps the tags' order. |
| TagSelector.FilteredTags | src/components/tag-selector.tsx:65-82 | A blank query gives exactly the first `min(10, n)` tags of the sorted copy. Any other query gives the search result for the untrimmed query, in input order and without a cap: exactly the matching tags. |
| TagSelector.NatToString | src/components/tag-selector.tsx:98 | The count is written as decimal digits without a leading zero. |
| TagSelector.ParseNatToString | src/components/tag-selector.tsx:98 | The decimal numeral of a count reads back as that count. |
| TagSelector.SummaryLabel | src/components/tag-selector.tsx:97-99 | The label is "Select tags..." exactly when nothing is selected, and otherwise reads "N tag selected", with `s` added when N > 1. |
| TagSelector.SummaryLabelReadsBack | src/components/tag-selector.tsx:97-99 | A non-empty label starts with digits that read back as the count and ends in " tags selected" exactly when more than one tag is selected. |

## Left out

- Trailing slashes: Node's `path.normalize` keeps a trailing `/`, and the model's paths do not. So for a URI path ending in `/`, the model differs from Node on Linux:
  - `stat`, `readFile` and `delete` of `…/foo/`, where `foo` is a regular file, succeed in the model. Node fails with ENOTDIR.
  - `writeFile` of `…/foo/` puts its temporary file at `…/foo.tmp` in the model. Node puts it at `…/foo/.tmp`, inside `foo`. When `foo` is missing, Node fails with ENOENT and the model creates `foo`.
  - `builder:/` resolves to the sandbox itself in the model, so `writeFile` refuses it with FileNotFound. Node keeps the trailing `/`, so its temporary file is `<sandbox>/.tmp`, inside the sandbox; the write fails with FileExists, or with ENOTDIR from renaming a regular file onto a path ending in `/`, and that file is unlinked again. Neither touches anything outside the sandbox.
- Windows paths, drive letters and `\` separators are not modelled; paths are POSIX.
- `os.homedir()` is a parameter of the constructor and is taken to be an absolute path: `BaseDir` resolves its segments from the root, so a relative home directory, which Node's `path.join` keeps relative, is treated as rooted.
- TempFs.TempFileSystemProvider.constructor: the model requires `ensureBaseDir` to succeed, because a constructor that throws leaves no provider to model.
- `watch` returns a no-op disposable and is not modelled; `console.log` calls are not modelled.
- TempFs.TempFileSystemProvider.Stat: `ctime` and `mtime` are not modelled, and a directory's size is 0 rather than the file system's block size.
- TempFs.TempFileSystemProvider.ReadDirectory: the listing is a set, because the order of `readdirSync` is the operating system's.
- The emitter fires arrays of events. Every call in the source fires an array of one, so `fired` records single events.
- Node's file system: permissions, symbolic links, hard links, disk-full and other I/O errors are not modelled. Concurrent writers are not modelled either.
- The `fs` calls are modelled on Linux errno behaviour:
  - `unlinkSync` of a directory gives EISDIR;
  - `mkdirSync` with `recursive` on a file gives EEXIST;
  - `rmdirSync` with `recursive` on a missing path fails (Node 16 or later).
- `videoReducer`'s `default:` branch returns the old state. It is unreachable for the six typed actions and is not modelled.
- The mp4 HEAD probe (`src/components/video.tsx:65-80`) is a network query with retries. Its `data` and `isLoading` are inputs.
- React rendering, hooks, the player's `onError` refetch, and the upload form's own behaviour are not modelled. The form is `src/video-upload/video-upload-form.tsx`, which is not part of this model.
- TagSelector.Lower: lower-cases ASCII letters only. JavaScript's `toLowerCase` also maps non-ASCII letters, and its Unicode case tables are not modelled.
- TagSelector.RankOf: `popularity_order` is an integer in the model. Fractional values and NaN are not modelled, and NaN counts as missing in the source.
- The selector's open/closed popover state and the commented-out prop synchronisation have no logic to model.
- Not part of this model: authentication, the post gateway and its commands, the event bus, the logger, the tree and web views, the S3 upload, and the build configuration. Each is network, host or framework glue.

## Findings

| source | as written | input that shows it | evidently intended | confidence | as-written member | corrected member |
|---|---|---|---|---|---|---|
| src/lib/temp-filesystem-provider.ts:29 | `normalized.startsWith(this._baseDir)` compares strings. A sibling directory whose name extends the sandbox name passes the traversal guard. | `uri.path = "/../.vscode-course-builder-temp-evil/f"` resolves to `~/.vscode-course-builder-temp-evil/f`, outside the sandbox, and is admitted. | Admit only the sandbox itself and paths below it, i.e. a prefix by path segments (equivalently, `normalized === base` or it starts with `base + "/"`). | not executed | Paths.AsWrittenGuardAdmitsSibling | Paths.GetFilePath |
| src/lib/temp-filesystem-provider.ts:89-90 | `writeFile` writes `${filePath}.tmp` beside whatever path the guard returns, and the guard returns the sandbox itself, with no trailing `/`, for `builder:/.` (likewise `/x/..` or an empty path). | `writeFile(builder:/., …)` when `~/.vscode-course-builder-temp.tmp` is a file: that file is overwritten, then unlinked, and the call fails with FileExists or EISDIR. | Never touch a path outside the sandbox: refuse the sandbox itself as a write target. | not executed | TempFs.WriteOnSandboxRemovesOutsideFile | TempFs.TempFileSystemProvider.WriteFile |
