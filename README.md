# Filesystem component and component registry, modelled in Dafny

This project models the core of a WebAssembly filesystem component and of
the component registry that sits beside it:

- **Path resolution** (`get_path`): `~` and `~/rest` are expanded against
  `HOME`, and everything else is taken as it is (`paths.dfy`).
- **The directory-tree renderer** (`build_tree`), in `tree.dfy`:
  - a depth-bounded pre-order walk;
  - each level's entries are sorted by name, with unreadable entries first;
  - each readable entry appends one line, `prefix + connector + marker +
    name`, to an output buffer;
  - the level below gets the prefix extended by `"│   "`, or by `"    "`
    under the last entry.
- **The pattern search** (`search_directory`), in `search.dfy`:
  - a pre-order walk in directory-iterator order;
  - it records the full path of every entry whose lower-cased name
    contains the lower-cased pattern;
  - it descends into every directory;
  - it aborts on the first read error.
- **The exported operations** (`ops.dfy`):
  - `list_directory`, `delete_file`, `delete_directory` and `file_exists`;
  - `get_directory_tree` and `search_file`, which wrap the renderer and
    the search.
  - These run against an abstract host (`fshost.dfy`): the `HOME`
    variable, one directory tree rooted at `/`, and the removals the
    operating system refuses. A path resolves component by component
    from the root, and a removal takes the entry out of its parent
    directory's listing, so every listing stays in step with what the
    paths below it name.
- **The registry** (`registry.dfy`):
  - `search_components`: a case-insensitive, any-term substring filter
    over name, description and URI;
  - `find_component_by_name_or_uri`: the first component whose name is
    equal up to ASCII case, or whose URI is equal exactly.

The filesystem is a value:
- A `Listing` is what `read_dir` gives for a directory: its entries in
  iterator order, or the error that stopped the read.
- An `Entry` is a readable entry (a name and a `Kind`) or an entry the
  iterator failed on.
- A directory's `Kind` holds its own `Listing`.

The recursive Rust functions `build_tree` and `search_directory` push onto
a `&mut String` / `&mut Vec<String>`. They are modelled as recursive
methods that thread that buffer through, each with a `while` loop over the
entries. Each method is proved equal to a recursive specification function
(`Level`, `Search`). The properties are then proved about those
functions:
- the search equals a filtered pre-order walk;
- the renderer's top-level lines are sorted, complete and have exactly
  one last connector.

Module layout:

| file | module | models |
|---|---|---|
| `wrappers.dfy` | `Wrappers` | `Option`, `Result` |
| `text.dfy` | `Text` | `to_lowercase` (ASCII), `contains`, `starts_with`, `eq_ignore_ascii_case`, `split_whitespace`, `join("\n")` |
| `paths.dfy` | `Paths` | `get_path`, Unix `Path::join`, `Path::file_name` |
| `fstree.dfy` | `FsTree` | directory entries and the `sort_by_key` name order |
| `tree.dfy` | `TreeRender` | `build_tree` |
| `search.dfy` | `PatternSearch` | `search_directory` |
| `fshost.dfy` | `FsHost` | path components, lookup and removal in the host's directory tree |
| `ops.dfy` | `FsOps` | the exported filesystem operations |
| `registry.dfy` | `Registry` | `search_components`, `find_component_by_name_or_uri` |

## Model

| member | source | states |
|---|---|---|
| Paths.GetPath | examples/filesystem-rs/src/lib.rs:426-440 | fails, with the HOME message, exactly when the input is `~` or starts with `~/` and HOME is unset; any other input comes back unchanged; `~` alone becomes HOME |
| Paths.TildeNameIsKept | examples/filesystem-rs/src/lib.rs:427 | `~name` (a tilde not followed by `/`) is not expanded, and resolves even without HOME |
| Paths.HomeRelative | examples/filesystem-rs/src/lib.rs:434-436 | `~/rest` with a relative `rest` is HOME, then one `/` unless HOME is empty or ends in `/`, then `rest` |
| Paths.AbsoluteRestReplacesHome | examples/filesystem-rs/src/lib.rs:434-436 | `~//abs` escapes HOME: joining an absolute suffix keeps only the suffix |
| Paths.Join | examples/filesystem-rs/src/lib.rs:435 | an absolute right side replaces the base; otherwise the result starts with the base, ends with the right side, and has one character between them, which is `/`, unless the base is empty or already ends in `/` |
| Paths.LastComponentOfJoin | examples/filesystem-rs/src/lib.rs:409-414 | the file name of `dir.join(name)` is `name` again, so the search matches on the entry's own name |
| Text.WordsEmptyIff | src/registry.rs:31-38 | `split_whitespace` yields no word exactly when the query is all whitespace (or empty) |
| Text.WordsAreWords | src/registry.rs:31-34 | every word of the split is non-empty and holds no whitespace |
| Text.EqIgnoreAsciiCaseIffLowerEqual | src/registry.rs:68 | two strings are equal ignoring ASCII case exactly when their lower-cased forms are equal |
| Text.SplitJoin | examples/filesystem-rs/src/lib.rs:263 | lines without newlines, joined with `"\n"`, split back into exactly those lines |
| FsTree.SortByName | examples/filesystem-rs/src/lib.rs:341-346 | the sorted entries are a permutation of the collected ones, ordered by the key (unreadable entries first, then names in code-point order) |
| TreeRender.BuildTree | examples/filesystem-rs/src/lib.rs:319-387 | appends to the buffer exactly the rendering of `Level`, and fails exactly when `Level` fails, with its error |
| TreeRender.AppendLevel | examples/filesystem-rs/src/lib.rs:348-386 | the loop over the sorted entries appends the rendering of all their lines, or stops at the first failing entry with its error |
| TreeRender.AppendEntry | examples/filesystem-rs/src/lib.rs:350-383 | one iteration: skips an unreadable entry; appends its line, then its subtree's lines, or passes up the subtree's error |
| TreeRender.LinesErrorPersists | examples/filesystem-rs/src/lib.rs:376-382 | once an entry's subtree fails, no later entry changes the level's result (the `?` aborts the loop) |
| TreeRender.LevelPrefixes | examples/filesystem-rs/src/lib.rs:326-328 | a level deeper than `max_depth` appends nothing; every line of a level extends its prefix, by `"    "` or `"│   "` per level below |
| TreeRender.LevelNested | examples/filesystem-rs/src/lib.rs:354-379 | every line below the level's own lines follows, with no own line between, a directory's own line, and its prefix continues the level's prefix with the extension that line's connector calls for: `"    "` after `└── `, `"│   "` after `├── ` |
| TreeRender.LastLevelIsFlat | examples/filesystem-rs/src/lib.rs:374-383 | at `depth == max_depth` every line carries the level's own prefix: the recursion below appends nothing |
| TreeRender.HeadLinesLast | examples/filesystem-rs/src/lib.rs:355-356 | among a level's own lines exactly the final one gets `└── `, because unreadable entries sort first |
| TreeRender.HeadLinesOrdered | examples/filesystem-rs/src/lib.rs:342-346 | a level's own lines are in ascending name order |
| TreeRender.HeadLinesDrawLevel | examples/filesystem-rs/src/lib.rs:341-372 | a level's own lines are one per readable entry: each names an entry with its type marker, and each readable entry has a line; they are sorted and only the final one is last |
| TreeRender.LevelTopLines | examples/filesystem-rs/src/lib.rs:349-383 | in the rendered level, the lines at the level's prefix are exactly those own lines, whatever the subtrees add |
| PatternSearch.SearchDirectory | examples/filesystem-rs/src/lib.rs:406-424 | appends to `matches` exactly the paths `Search` gives, or fails exactly when `Search` does, with its error |
| PatternSearch.SearchLevel | examples/filesystem-rs/src/lib.rs:407-422 | the loop over the entries appends each entry's paths in iterator order, or stops at the first entry error |
| PatternSearch.VisitEntry | examples/filesystem-rs/src/lib.rs:408-421 | one iteration: an entry error is passed up; a matching entry's path is pushed before the search of its subtree |
| PatternSearch.SearchIsFilteredWalk | examples/filesystem-rs/src/lib.rs:406-424 | the search succeeds exactly on a tree with no read error, and then records the pre-order walk's matching visits, in walk order |
| PatternSearch.SearchMembership | examples/filesystem-rs/src/lib.rs:416-421 | a path is recorded exactly when the walk visits an entry at that path whose lower-cased name contains the lower-cased pattern |
| PatternSearch.SearchBound | examples/filesystem-rs/src/lib.rs:416-418 | no more paths are recorded than entries visited |
| PatternSearch.SearchEmptyPattern | examples/filesystem-rs/src/lib.rs:416 | the empty pattern records every visited path, in walk order |
| PatternSearch.SearchIgnoresCase | examples/filesystem-rs/src/lib.rs:410-416 | patterns equal up to case give the same result, errors included |
| PatternSearch.SearchErrorPersists | examples/filesystem-rs/src/lib.rs:407-420 | once an entry fails, the result for the whole directory is that error |
| PatternSearch.FlatExample | examples/filesystem-rs/src/lib.rs:416-418 | `foo` picks `foo.txt` and `Foobar.md` but not `bar.txt`, in iterator order |
| PatternSearch.NestedExample | examples/filesystem-rs/src/lib.rs:416-421 | a matching directory is recorded, then the matching entries below it |
| FsHost.ComponentsOfJoin | examples/filesystem-rs/src/lib.rs:435 | joining a name onto a directory path resolves to that directory's components followed by the name |
| FsHost.Components | examples/filesystem-rs/src/lib.rs:161 | every component a path resolves through is a name an entry can carry: non-empty, not `.`, without `/` |
| FsHost.ComponentsSplit | examples/filesystem-rs/src/lib.rs:161 | a `/` splits a path's components between its two sides |
| FsHost.LookupAppend | examples/filesystem-rs/src/lib.rs:161 | resolving `a + b` is resolving `b` from what `a` names, and nothing when `a` names nothing |
| FsHost.Find | examples/filesystem-rs/src/lib.rs:161 | a name is found in a listing exactly when some readable entry carries it, and what is found is such an entry's kind |
| FsHost.Without | examples/filesystem-rs/src/lib.rs:172 | the listing keeps exactly the entries not carrying the name, and the name is then not found |
| FsHost.FindWithout | examples/filesystem-rs/src/lib.rs:172 | taking one name out of a listing leaves what every other name finds |
| FsHost.RemovedIsGone | examples/filesystem-rs/src/lib.rs:172 | after the removal the removed path names nothing |
| FsHost.RemoveKeepsOthers | examples/filesystem-rs/src/lib.rs:172 | a removal changes nothing that a path outside the removed one, and not on the way to it, names |
| FsHost.RemoveEmptiesParent | examples/filesystem-rs/src/lib.rs:195 | after the removal the parent directory's listing is its old listing without the removed name |
| FsOps.RemoveFile | examples/filesystem-rs/src/lib.rs:172 | a successful `remove_file` leaves the path naming nothing |
| FsOps.RemoveDir | examples/filesystem-rs/src/lib.rs:195 | a successful `remove_dir` was on a readable, empty directory (it is not recursive) and leaves the path naming nothing |
| FsOps.ListDirectory | examples/filesystem-rs/src/lib.rs:16-50 | the loop's result is `ListDirectoryReply`: the resolution error, the read error naming the path, or the tagged line of each entry in iterator order (its shape is stated by `ListingShape`) |
| FsOps.ListingShape | examples/filesystem-rs/src/lib.rs:30-46 | the listing succeeds exactly when the path resolves to a readable directory; then it has one newline-terminated line per entry, so an unreadable entry becomes a line, not a failure |
| FsOps.EntryLineTag | examples/filesystem-rs/src/lib.rs:33-42 | a line starts with `[DIR] ` exactly for a directory and with `Error reading entry: ` exactly for an unreadable entry; a readable entry's line ends with its name |
| FsOps.DeleteFile | examples/filesystem-rs/src/lib.rs:158-179 | succeeds exactly when the path resolves to an existing non-directory the system does not refuse; success leaves the path naming nothing and keeps HOME and the refusals, and failure leaves the host as it was |
| FsOps.DeleteFileMissing | examples/filesystem-rs/src/lib.rs:161-163 | a missing path is reported as not existing |
| FsOps.DeleteFileRefusesDirectory | examples/filesystem-rs/src/lib.rs:165-170 | a directory is refused with the "use delete-directory" message, nothing is removed, and the removal is never attempted |
| FsOps.DirRemovalFailure | examples/filesystem-rs/src/lib.rs:200-208 | the failure message always starts with "Failed to delete directory '<path>': <error>" |
| FsOps.HintExactlyWhenNotEmpty | examples/filesystem-rs/src/lib.rs:204-208 | the "Remove all contents first." hint is appended exactly when the lower-cased error contains "not empty" |
| FsOps.DeleteDirectory | examples/filesystem-rs/src/lib.rs:181-214 | succeeds exactly when the path resolves to a readable, empty directory other than the root that the system does not refuse; success leaves the path naming nothing and keeps HOME and the refusals, and failure leaves the host as it was |
| FsOps.NonEmptyDirectoryGetsHint | examples/filesystem-rs/src/lib.rs:195-208 | removing a directory that still has entries fails with the hint |
| FsOps.PermissionDeniedHasNoHint | examples/filesystem-rs/src/lib.rs:200-208 | a permission refusal is passed on without the hint |
| FsOps.EmptyDirectoryIsDeleted | examples/filesystem-rs/src/lib.rs:195-199 | an empty directory other than the root that is not refused is deleted with the success message, and its path then names nothing |
| FsOps.DeleteDirectoryRefusesFile | examples/filesystem-rs/src/lib.rs:188-193 | a non-directory is refused with the "use delete-file" message and nothing is removed |
| FsOps.DeletesKeepOthers | examples/filesystem-rs/src/lib.rs:172-195 | a successful delete leaves what every path outside the deleted one, and not on the way to it, names |
| FsOps.DeletesShrinkParent | examples/filesystem-rs/src/lib.rs:172-195 | a successful delete takes the entry out of its parent directory's listing and changes nothing else in it |
| FsOps.DeleteChildThenParent | examples/filesystem-rs/src/lib.rs:158-214 | a directory holding one file cannot be deleted; after `delete_file` on that file succeeds, `delete_directory` on the directory succeeds |
| FsOps.OnlyChildDeleted | examples/filesystem-rs/src/lib.rs:158-179 | deleting the only file of a directory succeeds and leaves that directory readable and empty |
| FsOps.FileExists | examples/filesystem-rs/src/lib.rs:216-221 | fails only when `~` needs HOME and HOME is unset; otherwise true exactly when the resolved path exists |
| FsOps.AbsentPathIsNotDeleted | examples/filesystem-rs/src/lib.rs:158-186 | when `file_exists` says no, both deletes report the path as missing and remove nothing |
| FsOps.GetDirectoryTree | examples/filesystem-rs/src/lib.rs:223-242 | returns `DirectoryTree`: the existence and directory errors, then what `BuildTree` appended to an empty buffer, which is the rendering of the root's `Level`, or its error behind "Failed to build directory tree: " |
| FsOps.TreeOfRoot | examples/filesystem-rs/src/lib.rs:234-238 | a successful tree draws, at the empty prefix, one sorted line per readable root entry; with `max_depth = 0` that is all it draws |
| FsOps.TreeOfUnreadableRoot | examples/filesystem-rs/src/lib.rs:235-237 | a root whose listing cannot be read fails with "Failed to build directory tree: Failed to read directory '<root>': <error>" |
| FsOps.SearchFile | examples/filesystem-rs/src/lib.rs:244-265 | returns `SearchFileReply`: the resolution error, the search error behind "Failed to search directory: ", the "No files matching" message when `Search` found nothing, or the found paths joined by newlines |
| FsOps.SearchFileLines | examples/filesystem-rs/src/lib.rs:256-264 | on a tree with no read error the search succeeds; the reply is the "No files matching" message when nothing matched, and otherwise, when no path holds a newline, it splits at newlines back into exactly the recorded paths |
| FsOps.SearchFileMissingPath | examples/filesystem-rs/src/lib.rs:252-254 | searching a missing path fails with the read error |
| Registry.QueryTerms | src/registry.rs:31-34 | one term per whitespace-separated word of the query, equal to it up to ASCII case, non-empty, free of whitespace and already lower-case |
| Registry.QueryTermsAreLowerWords | src/registry.rs:31-34 | the terms are the words of the lower-cased query |
| Registry.Keep | src/registry.rs:40-56 | keeps the components in registry order, and keeps a component exactly when some term occurs in its lower-cased name, description or URI; each kept component appears as often as it did in the registry |
| Registry.SearchComponents | src/registry.rs:23-59 | no query, or a query with no words, returns every component; otherwise exactly those matching some term, in order, each as often as in the registry; never more than given |
| Registry.SearchIgnoresQueryCase | src/registry.rs:31-34 | queries equal up to case give the same result |
| Registry.BlankQueryReturnsAll | src/registry.rs:36-38 | a query of whitespace returns the whole registry |
| Registry.MoreTermsSelectMore | src/registry.rs:49-53 | terms combine with OR: adding terms never drops a selected component |
| Registry.OneTermPicks | src/registry.rs:40-56 | a one-term query keeps a component holding the term and drops one that does not |
| Registry.FindComponent | src/registry.rs:62-70 | finds nothing exactly when no component's name equals the query up to ASCII case and no URI equals it exactly; what it finds is one of the components and matches the query |
| Registry.FindIsFirst | src/registry.rs:66-69 | the component found is the first one, in registry order, that matches |
| Registry.WeatherExample | src/registry.rs:110-128 | `weather` selects only the weather server out of the weather and time servers |
| Registry.UpperCaseExample | src/registry.rs:130-140 | `WEATHER` gives the same single result |
| Registry.MultiTermExample | src/registry.rs:168-186 | `weather rust` selects both components, one per term |
| Registry.UriExample | src/registry.rs:188-199 | `microsoft` selects a component through its URI alone |
| Registry.BlankExample | src/registry.rs:201-212 | the query `"   "` returns every component |
| Registry.FindExamples | src/registry.rs:142-166 | lookups by exact name, by lower-case name and by URI find the weather server; an upper-case URI finds nothing |

## Left out

- `read_file`, `write_file`, `create_directory`, `move_path`, `get_file_info` and `format_size`: file contents, metadata, timestamps and floating-point size formatting are not part of this model.
- `parse_registry`: JSON decoding by `serde_json` is not part of this model, and neither is the WIT binding glue (`bindings`, `export!`).
- Real I/O:
  - The operating system is a value (`Host`).
  - The `io::Error` texts the model produces itself are the Linux ones: "No such file or directory (os error 2)", "Not a directory (os error 20)", "Directory not empty (os error 39)" and "Device or resource busy (os error 16)". Any other refusal is whatever text the host gives.
  - `remove_dir` is modelled as: a refusal first, then the root, then the read error, then the non-empty test.
- Concurrency: the filesystem does not change during a call.
- FsOps.ReadDir: the host's stand-in for `fs::read_dir`, with no contract of its own. It gives a directory's listing, "No such file or directory" for a missing path and "Not a directory" for anything else.
- The host's filesystem (`fshost.dfy`):
  - There is no working directory: a relative path resolves from the root, like an absolute one.
  - `..` is an ordinary name, not the parent directory; `.` and empty pieces (repeated or trailing `/`) name nothing. What a trailing `/` after a file name means to the operating system is not modelled.
  - A path through a file names nothing, as a missing path does; the operating system's "Not a directory" error for such a path is not modelled.
  - Nothing below a directory whose listing cannot be read is reachable.
  - Names in a listing need not be distinct: a lookup finds the first readable entry of a name, and a removal takes out every entry of that name.
  - An unreadable directory is not removed: `remove_dir` reports its read error.
  - The root cannot be removed: `remove_dir` reports "Device or resource busy".
  - A refusal is a fixed text keyed by the path's components; which removals a real system refuses (permissions, mounts, open files) is not modelled.
- Case mapping: `to_lowercase` is modelled for ASCII letters only. Other Unicode case mappings (which can also change a string's length) are left out. `split_whitespace` uses the full Unicode White_Space list.
- Path and name conversions:
  - Names are Dafny strings, so `to_string_lossy` replacement characters do not arise.
  - A non-UTF-8 name, which `sort_by_key` keys as absent, is not modelled.
  - `Path::display` is the string itself.
  - Paths are Unix paths: no Windows prefixes, and no normalisation of `.` or repeated `/` by `Path::join`.
- File types:
  - The entry's `file_type()` (which does not follow symlinks) and `entry.path().is_dir()` (which does) are one `Kind`.
  - A symlink to a directory is therefore either a directory for both or a non-directory for both.
- FsTree.SortByName: `sort_by_key` is modelled as a stable insertion sort on a sequence, not an in-place sort of the vector.
- TreeRender.BuildTree:
  - `depth` and `max_depth` are unbounded naturals. The `u32` overflow of `current_depth + 1` at `u32::MAX` is not modelled.
  - What a failed call leaves in the buffer is not stated, because the only caller discards it.
- PatternSearch.SearchDirectory: what a failed call leaves in `matches` is not stated, because the only caller discards it.
