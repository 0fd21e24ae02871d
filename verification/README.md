# 115dump core, modelled in Dafny

115dump mirrors a 115 cloud-drive directory export onto a local directory.
The code that exists today has two pieces of real logic, both modelled here:

- `Tree.get_source_tree`: one pass over the entries of a remote export
  (`key`, `parent_key`, `name`). It rebuilds each entry's path from its
  parent's path through an index keyed by entry key, special-cases the
  second entry (it gets the requested root path when its parent is already
  indexed and that path ends with its name), and emits the non-empty paths with `/` replaced by the local
  separator.
- `Tree.get_target_tree`: a recursive pre-order walk of the local mirror
  that appends one string per directory entry and descends into every entry
  that is not a file. The string is the joined path with
  `lstrip(base_dir + os.sep)` applied, which strips a *set of characters*.
- `Job`: a status (`pending`, `running`, `completed`, `failed`) and an
  append-only log, with `start`, `complete` and `fail`.

Files (one module each):

- `outcomes.dfy` (`Outcomes`): `Result` and `Outcome`, standing in for
  values that may be exceptions.
- `strings.dfy` (`Strings`): Python's `str.endswith`, `str.replace` of one
  character, `str.lstrip(chars)`, `str.removeprefix` and `os.path.join` of
  two parts (exactly `posixpath.join` when the separator is `/`).
- `source_tree.dfy` (`SourceTree`): the entry stream as `seq<Entry>`, the
  pass as a fold `Run` over a `Progress(index, paths)` state, the loop as the
  method `GetSourceTree`, and lemmas about single entries, the index and
  the emitted list.
- `target_tree.dfy` (`TargetTree`): the filesystem as
  `datatype Node = File(name) | Dir(name, children)`. `Listing` is the
  pre-order reference listing. `Walk` and `GetTargetTree` are the
  accumulator-passing walk. It also holds the `lstrip` finding below.
- `job.dfy` (`Jobs`): the job record. The collaborators `start` calls are
  given as their outcomes (returned or raised). There are lemmas about
  arbitrary sequences of operations.

Two behaviours of the code that a reader might not expect, both modelled as
written:

- `lstrip(base_dir + os.sep)` strips a character set, not the prefix, so it
  can eat into the entry's own path (see Findings).
- `complete` and `fail` do not check the status, so neither completed nor
  failed is terminal. `start` never calls `fail`, so the job is never marked
  failed by it: an error before the status update (app/job.py:26) leaves the
  job unchanged, and an error from `dump.run()` leaves it running with
  "Job started." logged.

## Model

| member | source | states |
|---|---|---|
| SourceTree.GetSourceTree | app/tree.py:17-33 | the single-pass loop with its growing key index returns exactly the list the fold over the entries defines; it has at most one path per entry and none of them is empty |
| SourceTree.Emit | app/tree.py:31-32 | only non-empty paths reach the output, so the output is never longer than the stream and holds no empty string |
| SourceTree.RunPrefix | app/tree.py:20-30 | the pass is single and front-to-back: entries that come later never change the path already given to an earlier entry |
| SourceTree.PathAt | app/tree.py:22-29 | an entry's path is decided only by the index built from the entries before it, its own position, its parent key and name, and the requested root |
| SourceTree.OrphanGetsEmptyPath | app/tree.py:22-24 | an entry whose parent key is not yet indexed gets the empty path |
| SourceTree.ChildPath | app/tree.py:28-29 | outside the second-entry case, an entry with an indexed parent gets parent path + "/" + name; the child of an entry with the empty path gets "/" + name |
| SourceTree.AnchorNaming | app/tree.py:26-27 | the second entry (the source's `i == 2`) gets exactly the requested root path when its parent is indexed and that path ends with its name |
| SourceTree.EmptyPathIff | app/tree.py:22-29 | an entry gets the empty path if and only if its parent is not yet indexed, or it is the second entry and both the requested root and its name are empty |
| SourceTree.IndexedKeys | app/tree.py:30 | a key is in the index exactly when some processed entry carries it, whether or not that entry was emitted |
| SourceTree.IndexIsLastWriter | app/tree.py:30 | the index maps a key to the path of the last entry carrying it, so a later entry with the same key overwrites an earlier one |
| SourceTree.EmitIsSubsequence | app/tree.py:31-32 | the output is the order-preserving subsequence of resolved paths at the non-empty positions, each with '/' replaced by the separator |
| SourceTree.EmittedIff | app/tree.py:22-32 | entry j contributes to the output exactly when its parent was already indexed, except for an empty second entry under an empty requested root |
| Strings.ReplaceChar | app/tree.py:32 | `replace('/', sep)` keeps the length, maps each '/' to the separator and leaves every other character in place |
| Strings.LStripIsLongestStrip | app/tree.py:45 | `lstrip(chars)` removes the longest leading run of characters that belong to the set, and nothing else |
| TargetTree.GetTargetTree | app/tree.py:38-50 | a missing root gives back the accumulator unchanged, and a root that is a file raises. Otherwise the result is the accumulator followed by one relativised string per descendant, in pre-order. No appended non-empty string starts with a character of `base_dir + os.sep` |
| TargetTree.Walk | app/tree.py:42-50 | the loop over the listing, recursing into non-files, appends to the accumulator exactly the relativised pre-order listing of the directory |
| TargetTree.PreOrder | app/tree.py:43-49 | for each child, the listing has the earlier children's items, then the child's own path, then its subtree (nothing for a file), then the later children |
| TargetTree.ListingSize | app/tree.py:43-49 | the walk lists exactly one item per descendant at every level |
| TargetTree.RelativeStripped | app/tree.py:45 | the appended string is a suffix of the joined path, and it is empty or starts with a character outside `base_dir + os.sep` |
| TargetTree.ListingUnder | app/tree.py:43-49 | for any starting directory (empty, with or without a trailing separator) and names as `os.listdir` returns them (non-empty, no separator), every listed path is the directory's join prefix followed by a non-empty, non-absolute remainder that does not end in a separator |
| TargetTree.AsWrittenLosesLeadingChars | app/tree.py:45 | as written, for any base and any listed entry at any depth (names as `os.listdir` returns them) whose path below the base starts with a character of `base_dir + os.sep`, the recorded string is a proper suffix of that relative path and does not join back onto the base to give the entry's path; e.g. `/data/tv/a.mkv` under `/data` is recorded as `v/a.mkv` |
| TargetTree.AsWrittenAgreesOtherwise | app/tree.py:45 | conversely, for any base and any listed entry (names as `os.listdir` returns them) whose path below the base does not start with a character of `base_dir + os.sep`, the as-written `lstrip` records exactly the prefix-removed relative path, so the loss happens precisely in the case `AsWrittenLosesLeadingChars` describes |
| TargetTree.AsWrittenExample | app/tree.py:45 | under base `/data`, the file `/data/data.mkv` is recorded as `.mkv` |
| TargetTree.IntendedExample | app/tree.py:45 | with prefix removal, the same file is recorded as `data.mkv` |
| TargetTree.RelativeIntended | app/tree.py:45 | removing the base's join prefix (`base_dir + os.sep`, or `base_dir` alone when it is empty or already ends with the separator) leaves the part that, appended to that prefix, rebuilds the path |
| TargetTree.IntendedRoundTrip | app/tree.py:43-45 | for any base (empty, `/`, with or without a trailing separator) and names as `os.listdir` returns them, every relative path obtained by prefix removal from a walk started at the base is non-empty, not absolute, and joins back onto the base to give the entry's path |
| TargetTree.TargetTreeIntended | app/tree.py:38-50 | the corrected walk keeps the missing-root and file-root behaviour and appends one string per descendant; for any base and names as `os.listdir` returns them, every appended string is non-empty, not absolute, and joins back onto the base to give that entry's path |
| Jobs.NewJob | app/job.py:7-10 | a new job is pending with an empty log, so its status is what its (empty) log implies |
| Jobs.Complete | app/job.py:33-35 | from any status, `complete` sets completed and appends exactly "Job completed.", so the status is what the new last log entry implies |
| Jobs.Fail | app/job.py:37-39 | from any status, `fail(reason)` sets failed and appends exactly "Job failed: " + reason. That entry differs from the other two messages, so the status is what the new last log entry implies |
| Jobs.Start | app/job.py:16-31 | if getting the client, building a tree or constructing the dump raises, the job is unchanged and the error propagates. Otherwise "Job started." is logged with status running before the dump runs. A failing dump leaves the job there; a dump that returns is followed by `complete`. `start` never produces a failed status on its own |
| Jobs.LogAppendOnly | app/job.py:26-39 | after any sequence of start/complete/fail, the earlier log is a prefix of the later one and the name is unchanged |
| Jobs.ApplyConsistent | app/job.py:26-39 | every operation keeps the status equal to what the last log entry implies, and keeps every log entry one of the three message kinds |
| Jobs.ReachableConsistent | app/job.py:7-39 | for every job created by the constructor and then put through any operations, the status is exactly what its log implies |
| Jobs.FailAfterComplete | app/job.py:33-39 | there is no terminal-state guard: `fail` after `complete` overwrites the status and keeps both log entries |
| Jobs.SuccessfulRun | app/job.py:16-35 | a new job whose collaborators all return ends completed with the log ["Job started.", "Job completed."] |

## Left out

- The p115client export iterator (app/tree.py:9-16) is a network call into foreign code. Its output is the input `seq<Entry>` of `GetSourceTree`. An exception it raises is re-raised unchanged (app/tree.py:34-36), so it has no model of its own.
- `os.path.exists`, `os.listdir` and `os.path.isfile` are an in-memory `Node` tree, and `os.sep` is a parameter. `os.path.join` is `posixpath.join` with the separator as a parameter: it is exact for `/`, but for `\` it is neither `posixpath` nor `ntpath` (drive letters, `/` as an alternative separator and UNC paths are not modelled). Symbolic links, permission errors and concurrent changes to the directory are not modelled.
- TargetTree.Walk: the source's recursive call (app/tree.py:49) ignores its return value and relies on appending to the one shared list in place. `Walk` passes the accumulator by value and returns it. The two agree because nothing in the model fails partway through a walk.
- TargetTree.IntendedRoundTrip: the properties hold for an empty base too, but the source never walks from an empty `root_dir`, since `os.path.exists('')` is false and app/tree.py:40-41 then returns the list unchanged. The `Root` parameter is independent of `rootDir`, so the model does not tie the two together.
- TargetTree.ListingUnder, TargetTree.IntendedRoundTrip, TargetTree.TargetTreeIntended, TargetTree.AsWrittenLosesLeadingChars: the properties are stated for names as `os.listdir` returns them (non-empty, without a separator). A tree with other names is still walked, but nothing is promised about its relative paths.
- The `Job` constructor wiring (app/job.py:12-14) passes arguments that the `Conn`, `Tree` and `Dump` constructors do not accept. `start` also calls `get_target_tree` with one argument (app/job.py:22), but its signature takes three (app/tree.py:38). All collaborators are abstract steps that return or raise, so these calls are not modelled as written.
- app/dump.py: `_dump` is an empty stub. `run` compares a list with `'/'`, so `full_dump` cannot be reached for list input. The dump's constructor and run are the `makeDump` and `runDump` steps of `Jobs.Start`.
- Add/delete diffing, rule and extension resolution, and copy/symlink/strm/virtual materialisation have no implementation in the repository, so they are not modelled.
- `Dump.__init__` calls `config.Config().get_config()` (app/dump.py:6), which app/config.py does not define, so constructing the dump always raises as written. `Jobs.Start` models the constructor as an abstract `makeDump` step that may return or raise.
- app/util.py:27 and app/utils.py:26 construct `Job(task.get_name(), task)` with two arguments, but `Job.__init__` takes only a name (app/job.py:7). These callers are not modelled; `Jobs.NewJob` takes the name alone.
- app/util.py, app/utils.py, app/config.py, app/task.py, app/main.py, app/websocket.py, app/watch.py and app/conn.py are not part of this model. They hold scheduling, log clean-up, JSON persistence, web endpoints and client construction.
- Jobs.Fail: the log entry for `fail` is modelled as the string "Job failed: " followed by the reason. Python's f-string formatting of a non-string reason object is not modelled.

## Findings

| source | as written | input that shows it | evidently intended | confidence | as-written member | corrected member |
|---|---|---|---|---|---|---|
| app/tree.py:45 | `item.lstrip(base_dir + os.sep)` removes every leading character in the set of characters of `base_dir + os.sep`, and goes on into the entry's own name | base_dir `/data`, separator `/`: the file `data.mkv` (path `/data/data.mkv`) is recorded as `.mkv`, and the nested file `/data/tv/a.mkv` as `v/a.mkv` | remove the prefix `base_dir + os.sep` (or `base_dir` alone when it already ends with the separator) and record `data.mkv`; for names as `os.listdir` returns them, every recorded path then joins back onto the base to give the entry's path | high; not executed | TargetTree.AsWrittenLosesLeadingChars | TargetTree.IntendedRoundTrip |

The walk `GetTargetTree` keeps the as-written `lstrip` because that is what
the code does. `TargetTreeIntended` is the same walk with prefix removal.
