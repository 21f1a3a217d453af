/**
 * The decision and message logic of the filesystem component's exported
 * operations, over an abstract host: the HOME variable, what each path
 * names, and the removals the operating system refuses. Reading a
 * directory yields the `Listing` that the traversals walk.
 */
module FsOps {
  import opened Wrappers
  import opened Text
  import opened Paths
  import opened FsTree
  import opened TreeRender
  import opened PatternSearch
  import opened FsHost

  /** The Linux texts of the `io::Error`s the model itself produces. */
  const NotFound := "No such file or directory (os error 2)"
  const NotADirectory := "Not a directory (os error 20)"
  const NotEmpty := "Directory " + NotEmptyMarker + " (os error 39)"
  const PermissionDenied := "Permission denied (os error 13)"

  /** What the appended hint is looked for in, once lower-cased. */
  const NotEmptyMarker := "not empty"
  const EmptyFirstHint := " Remove all contents first."

  /** The Linux text of the error `rmdir` gives for the root directory. */
  const Busy := "Device or resource busy (os error 16)"

  /**
   * The environment of one call: the HOME variable, the directory tree
   * below the root (what reading the root gives), and the error the system
   * reports when asked to remove the path with the given components.
   */
  datatype Host = Host(home: Option<string>, root: Listing, refusals: map<seq<string>, string>)

  /** A reply together with the host as the call leaves it. */
  datatype Outcome = Outcome(result: Result<string>, host: Host)

  /** What path `p` names; the empty path names nothing. */
  function Node(host: Host, p: string): Option<Kind>
  {
    if p == "" then None else Lookup(Directory(host.root), Components(p))
  }

  /** `Path::exists`. */
  predicate Exists(host: Host, p: string)
  {
    Node(host, p).Some?
  }

  /** `Path::is_dir`. */
  predicate IsDir(host: Host, p: string)
  {
    Node(host, p).Some? && Node(host, p).value.Directory?
  }

  /** `fs::read_dir(p)`: the directory's listing, or why it cannot be read. */
  function ReadDir(host: Host, p: string): Listing
  {
    match Node(host, p)
    case None => ReadError(NotFound)
    case Some(Directory(l)) => l
    case Some(_) => ReadError(NotADirectory)
  }

  /** `fs::remove_file(p)` on an existing non-directory: the host without it, or the refusal. */
  function RemoveFile(host: Host, p: string): (r: Result<Host>)
    requires Exists(host, p) && !IsDir(host, p)
    ensures r.Ok? ==> !Exists(r.value, p)
  {
    var c := Components(p);
    if c in host.refusals then Err(host.refusals[c])
    else
      RemovedIsGone(host.root, c);
      Ok(host.(root := RemoveAt(host.root, c)))
  }

  /**
   * `fs::remove_dir(p)` on an existing directory: refused paths and the
   * root stay, and only a readable, empty directory is removed.
   */
  function RemoveDir(host: Host, p: string): (r: Result<Host>)
    requires IsDir(host, p)
    ensures r.Ok? ==> ReadDir(host, p) == Listed([]) && !Exists(r.value, p)
  {
    var c := Components(p);
    if c in host.refusals then Err(host.refusals[c])
    else if c == [] then Err(Busy)
    else match ReadDir(host, p)
      case ReadError(e) => Err(e)
      case Listed(entries) =>
        if entries != [] then Err(NotEmpty)
        else
          RemovedIsGone(host.root, c);
          Ok(host.(root := RemoveAt(host.root, c)))
  }

  // ----- list_directory -----

  /** The line `list_directory` gives an entry. */
  function EntryLine(e: Entry): string
  {
    match e
    case BadEntry(err) => "Error reading entry: " + err + "\n"
    case Named(name, kind) =>
      (match kind
       case Directory(_) => "[DIR]"
       case File => "[FILE]"
       case UnknownType => "[UNKNOWN]") + " " + name + "\n"
  }

  /** What `list_directory` returns: one line per entry in iterator order, or why it could not read. */
  function ListDirectoryReply(path: string, host: Host): Result<seq<string>>
  {
    match GetPath(path, host.home)
    case Err(e) => Err(e)
    case Ok(p) =>
      match ReadDir(host, p)
      case ReadError(e) => Err("Failed to read directory '" + p + "': " + e)
      case Listed(entries) => Ok(seq(|entries|, i requires 0 <= i < |entries| => EntryLine(entries[i])))
  }

  /** `list_directory`: collects the tagged line of every entry. */
  method ListDirectory(path: string, host: Host) returns (r: Result<seq<string>>)
    ensures r == ListDirectoryReply(path, host)
  {
    var resolved := GetPath(path, host.home);
    if resolved.Err? {
      return Err(resolved.error);
    }
    var p := resolved.value;
    var l := ReadDir(host, p);
    if l.ReadError? {
      return Err("Failed to read directory '" + p + "': " + l.error);
    }
    var text: seq<string> := [];
    for i := 0 to |l.entries|
      invariant LinesSoFar(text, l.entries, i)
    {
      text := text + [EntryLine(l.entries[i])];
    }
    return Ok(text);
  }

  /** The loop invariant of `list_directory`: `text` holds the lines of the first `i` entries. */
  predicate LinesSoFar(text: seq<string>, entries: seq<Entry>, i: nat)
  {
    i <= |entries| && text == seq(i, j requires 0 <= j < i => EntryLine(entries[j]))
  }

  /**
   * A bad entry adds an error line instead of failing the listing: the
   * listing succeeds exactly when the path resolves to a readable
   * directory, with one line per entry, in order.
   */
  lemma ListingShape(path: string, host: Host)
    ensures var r := ListDirectoryReply(path, host);
      var q := GetPath(path, host.home);
      && (r.Ok? <==> q.Ok? && ReadDir(host, q.value).Listed?)
      && (r.Ok? ==> |r.value| == |ReadDir(host, q.value).entries|)
      && (r.Ok? ==> forall i :: 0 <= i < |r.value| ==> EndsWith(r.value[i], "\n"))
  {
    var r := ListDirectoryReply(path, host);
    if r.Ok? {
      forall i | 0 <= i < |r.value| ensures EndsWith(r.value[i], "\n") {
      }
    }
  }

  /** An entry's line carries `[DIR] ` exactly when the entry is a directory. */
  lemma EntryLineTag(e: Entry)
    ensures StartsWith(EntryLine(e), "[DIR] ") <==> IsDirectory(e)
    ensures StartsWith(EntryLine(e), "Error reading entry: ") <==> e.BadEntry?
    ensures e.Named? ==> EndsWith(EntryLine(e), " " + e.name + "\n")
  {
    var s := EntryLine(e);
    if e.Named? {
      assert s[0] == '[';
      if e.kind.File? {
        assert s[1] == 'F';
      } else if e.kind.UnknownType? {
        assert s[1] == 'U';
      }
    } else {
      assert s[0] == 'E';
    }
  }

  // ----- delete_file / delete_directory / file_exists -----

  /** `delete_file`: existence first, then the directory test, then the removal. */
  function DeleteFile(path: string, host: Host): (o: Outcome)
    ensures o.result.Ok? <==> (GetPath(path, host.home).Ok?
      && var p := GetPath(path, host.home).value;
      Exists(host, p) && !IsDir(host, p) && Components(p) !in host.refusals)
    ensures o.result.Ok? ==>
      !Exists(o.host, GetPath(path, host.home).value) && o.host.home == host.home && o.host.refusals == host.refusals
    ensures o.result.Err? ==> o.host == host
  {
    match GetPath(path, host.home)
    case Err(e) => Outcome(Err(e), host)
    case Ok(p) =>
      if !Exists(host, p) then Outcome(Err("File '" + p + "' does not exist"), host)
      else if IsDir(host, p) then Outcome(Err("'" + p + "' is a directory, use delete-directory instead"), host)
      else match RemoveFile(host, p)
        case Ok(after) => Outcome(Ok("Successfully deleted file '" + p + "'"), after)
        case Err(e) => Outcome(Err("Failed to delete file '" + p + "': " + e), host)
  }

  /** A missing path is reported as missing, before any other test. */
  lemma DeleteFileMissing(path: string, host: Host)
    requires GetPath(path, host.home).Ok? && !Exists(host, GetPath(path, host.home).value)
    ensures DeleteFile(path, host) == Outcome(Err("File '" + GetPath(path, host.home).value + "' does not exist"), host)
  {
  }

  /**
   * A directory is refused with the "use delete-directory" error and
   * nothing is removed: the reply does not depend on what a removal would
   * have done.
   */
  lemma DeleteFileRefusesDirectory(path: string, host: Host, refusals: map<seq<string>, string>)
    requires GetPath(path, host.home).Ok? && IsDir(host, GetPath(path, host.home).value)
    ensures var p := GetPath(path, host.home).value;
      DeleteFile(path, host) == Outcome(Err("'" + p + "' is a directory, use delete-directory instead"), host)
    ensures DeleteFile(path, host).result == DeleteFile(path, host.(refusals := refusals)).result
  {
  }

  /** The failure message of `delete_directory`, with the hint when the error says "not empty" in any case. */
  function DirRemovalFailure(p: string, e: string): (m: string)
    ensures StartsWith(m, "Failed to delete directory '" + p + "': " + e)
  {
    var base := "Failed to delete directory '" + p + "': " + e;
    if Contains(Lower(e), NotEmptyMarker) then base + EmptyFirstHint else base
  }

  /** `delete_directory`: existence first, then the directory test, then the removal. */
  function DeleteDirectory(path: string, host: Host): (o: Outcome)
    ensures o.result.Ok? <==> (GetPath(path, host.home).Ok?
      && var p := GetPath(path, host.home).value;
      IsDir(host, p) && Components(p) !in host.refusals && Components(p) != [] && ReadDir(host, p) == Listed([]))
    ensures o.result.Ok? ==>
      !Exists(o.host, GetPath(path, host.home).value) && o.host.home == host.home && o.host.refusals == host.refusals
    ensures o.result.Err? ==> o.host == host
  {
    match GetPath(path, host.home)
    case Err(e) => Outcome(Err(e), host)
    case Ok(p) =>
      if !Exists(host, p) then Outcome(Err("Directory '" + p + "' does not exist"), host)
      else if !IsDir(host, p) then Outcome(Err("'" + p + "' is not a directory, use delete-file instead"), host)
      else match RemoveDir(host, p)
        case Ok(after) => Outcome(Ok("Successfully deleted directory '" + p + "'"), after)
        case Err(e) => Outcome(Err(DirRemovalFailure(p, e)), host)
  }

  /** The hint is added exactly when the lower-cased error contains "not empty". */
  lemma HintExactlyWhenNotEmpty(p: string, e: string)
    ensures DirRemovalFailure(p, e) == "Failed to delete directory '" + p + "': " + e + EmptyFirstHint
      <==> Contains(Lower(e), NotEmptyMarker)
  {
    var base := "Failed to delete directory '" + p + "': " + e;
    if !Contains(Lower(e), NotEmptyMarker) {
      assert |DirRemovalFailure(p, e)| == |base| < |base + EmptyFirstHint|;
    }
  }

  /** Removing a directory that still has entries fails with the hint. */
  lemma NonEmptyDirectoryGetsHint(path: string, host: Host)
    requires GetPath(path, host.home).Ok?
    requires var p := GetPath(path, host.home).value;
      IsDir(host, p) && Components(p) !in host.refusals && Components(p) != []
      && ReadDir(host, p).Listed? && ReadDir(host, p).entries != []
    ensures var p := GetPath(path, host.home).value;
      DeleteDirectory(path, host)
        == Outcome(Err("Failed to delete directory '" + p + "': " + NotEmpty + EmptyFirstHint), host)
  {
    NotEmptyErrorSaysSo();
  }

  /** The system's text for a non-empty directory is one that gets the hint. */
  lemma NotEmptyErrorSaysSo()
    ensures Contains(Lower(NotEmpty), NotEmptyMarker)
  {
    var a, b := "Directory ", " (os error 39)";
    LowerAppend(a + NotEmptyMarker, b);
    LowerAppend(a, NotEmptyMarker);
    LowerKeepsLowerCase(NotEmptyMarker);
    var s := Lower(a) + NotEmptyMarker + Lower(b);
    assert s[10..19] == NotEmptyMarker;
    ContainsAt(s, NotEmptyMarker, 10);
  }

  /** The permission error has no `y`, so it cannot say "not empty". */
  lemma PermissionDeniedSaysOtherwise()
    ensures !Contains(Lower(PermissionDenied), NotEmptyMarker)
  {
    var s := Lower(PermissionDenied);
    assert forall i :: 0 <= i < |s| ==> s[i] != 'y';
    MissingCharNotContained(s, NotEmptyMarker, 8);
  }

  /** A refusal whose text never says "not empty" is passed on without the hint. */
  lemma PermissionDeniedHasNoHint(path: string, host: Host)
    requires GetPath(path, host.home).Ok?
    requires var p := GetPath(path, host.home).value;
      IsDir(host, p) && Components(p) in host.refusals && host.refusals[Components(p)] == PermissionDenied
    ensures var p := GetPath(path, host.home).value;
      DeleteDirectory(path, host).result
        == Err("Failed to delete directory '" + p + "': " + PermissionDenied)
  {
    PermissionDeniedSaysOtherwise();
  }

  /** An empty directory the system does not refuse is removed, and its path then names nothing. */
  lemma EmptyDirectoryIsDeleted(path: string, host: Host)
    requires GetPath(path, host.home).Ok?
    requires var p := GetPath(path, host.home).value;
      ReadDir(host, p) == Listed([]) && Components(p) != [] && Components(p) !in host.refusals
    ensures var p := GetPath(path, host.home).value;
      var o := DeleteDirectory(path, host);
      o.result == Ok("Successfully deleted directory '" + p + "'") && !Exists(o.host, p)
  {
  }

  /** `delete_directory` turns a plain file away without removing it. */
  lemma DeleteDirectoryRefusesFile(path: string, host: Host)
    requires GetPath(path, host.home).Ok?
    requires var p := GetPath(path, host.home).value; Exists(host, p) && !IsDir(host, p)
    ensures var p := GetPath(path, host.home).value;
      DeleteDirectory(path, host) == Outcome(Err("'" + p + "' is not a directory, use delete-file instead"), host)
  {
  }

  /**
   * A successful delete changes nothing that a path outside the deleted one,
   * and not on the way to it, names.
   */
  lemma DeletesKeepOthers(path: string, host: Host, q: string)
    requires GetPath(path, host.home).Ok?
    requires q != "" && Unrelated(Components(q), Components(GetPath(path, host.home).value))
    ensures DeleteFile(path, host).result.Ok? ==> Node(DeleteFile(path, host).host, q) == Node(host, q)
    ensures DeleteDirectory(path, host).result.Ok? ==> Node(DeleteDirectory(path, host).host, q) == Node(host, q)
  {
    var c := Components(GetPath(path, host.home).value);
    if c != [] {
      RemoveKeepsOthers(host.root, c, Components(q));
    }
  }

  /** A successful delete takes the entry out of its parent directory's listing, and nothing else. */
  lemma DeletesShrinkParent(path: string, host: Host, parent: string, name: string, entries: seq<Entry>)
    requires GetPath(path, host.home).Ok?
    requires parent != "" && Components(GetPath(path, host.home).value) == Components(parent) + [name]
    requires ReadDir(host, parent) == Listed(entries)
    ensures DeleteFile(path, host).result.Ok? ==> ReadDir(DeleteFile(path, host).host, parent) == Listed(Without(entries, name))
    ensures DeleteDirectory(path, host).result.Ok? ==> ReadDir(DeleteDirectory(path, host).host, parent) == Listed(Without(entries, name))
  {
    var c := Components(GetPath(path, host.home).value);
    assert c[..|c| - 1] == Components(parent) && c[|c| - 1] == name;
    RemoveEmptiesParent(host.root, c, entries);
  }

  /**
   * A directory holding one file is refused with the hint; once the file
   * is deleted, the same directory is deleted.
   */
  lemma DeleteChildThenParent(dir: string, name: string, host: Host)
    requires dir != "" && !NeedsExpansion(dir) && ValidName(name)
    requires ReadDir(host, dir) == Listed([Named(name, File)])
    requires Components(dir) != [] && Components(dir) !in host.refusals && Components(dir) + [name] !in host.refusals
    ensures DeleteDirectory(dir, host).result.Err?
    ensures var first := DeleteFile(Join(dir, name), host);
      first.result.Ok? && DeleteDirectory(dir, first.host).result.Ok?
  {
    var first := DeleteFile(Join(dir, name), host);
    OnlyChildDeleted(dir, name, host);
    assert GetPath(dir, first.host.home) == Ok(dir);
  }

  /** Deleting the only file of a directory leaves that directory, empty. */
  lemma OnlyChildDeleted(dir: string, name: string, host: Host)
    requires dir != "" && !NeedsExpansion(dir) && ValidName(name)
    requires ReadDir(host, dir) == Listed([Named(name, File)])
    requires Components(dir) + [name] !in host.refusals
    ensures var first := DeleteFile(Join(dir, name), host);
      first.result.Ok? && ReadDir(first.host, dir) == Listed([])
      && first.host.home == host.home && first.host.refusals == host.refusals
  {
    var child := Join(dir, name);
    ChildIsFile(dir, name, host);
    assert Without([Named(name, File)], name) == [];
    DeletesShrinkParent(child, host, dir, name, [Named(name, File)]);
  }

  /** The only entry of a directory is a file at the joined path, which `get_path` leaves alone. */
  lemma ChildIsFile(dir: string, name: string, host: Host)
    requires dir != "" && !NeedsExpansion(dir) && ValidName(name)
    requires ReadDir(host, dir) == Listed([Named(name, File)])
    ensures GetPath(Join(dir, name), host.home) == Ok(Join(dir, name))
    ensures Components(Join(dir, name)) == Components(dir) + [name]
    ensures Node(host, Join(dir, name)) == Some(File)
  {
    assert !IsAbsolute(name);
    JoinKeepsUnexpanded(dir, name);
    ComponentsOfJoin(dir, name);
    var c := Components(dir);
    var holder := Directory(Listed([Named(name, File)]));
    assert Lookup(Directory(host.root), c) == Some(holder);
    assert Lookup(holder, [name]) == Some(File) by {
      assert Find([Named(name, File)], name) == Some(File);
      assert [name][1..] == [];
    }
    LookupAppend(Directory(host.root), c, [name]);
  }

  /** `file_exists`. */
  function FileExists(path: string, host: Host): (r: Result<bool>)
    ensures r.Err? <==> NeedsExpansion(path) && host.home.None?
    ensures r.Ok? ==> (r.value <==> Exists(host, GetPath(path, host.home).value))
  {
    match GetPath(path, host.home)
    case Err(e) => Err(e)
    case Ok(p) => Ok(Exists(host, p))
  }

  /** When `file_exists` says no, both delete operations report the path as missing and remove nothing. */
  lemma AbsentPathIsNotDeleted(path: string, host: Host)
    requires FileExists(path, host) == Ok(false)
    ensures var p := GetPath(path, host.home).value;
      && DeleteFile(path, host) == Outcome(Err("File '" + p + "' does not exist"), host)
      && DeleteDirectory(path, host) == Outcome(Err("Directory '" + p + "' does not exist"), host)
  {
  }

  // ----- get_directory_tree -----

  /** What `get_directory_tree` returns. */
  function DirectoryTree(path: string, host: Host, maxDepth: nat): Result<string>
  {
    match GetPath(path, host.home)
    case Err(e) => Err(e)
    case Ok(p) =>
      if !Exists(host, p) then Err("Path '" + p + "' does not exist")
      else if !IsDir(host, p) then Err("'" + p + "' is not a directory")
      else match Level(p, ReadDir(host, p), 0, maxDepth, "")
        case Err(e) => Err("Failed to build directory tree: " + e)
        case Ok(lines) => Ok(Render(lines))
  }

  /** `get_directory_tree`: checks the path, then renders into an empty buffer. */
  method GetDirectoryTree(path: string, host: Host, maxDepth: nat) returns (r: Result<string>)
    ensures r == DirectoryTree(path, host, maxDepth)
  {
    var resolved := GetPath(path, host.home);
    if resolved.Err? {
      return Err(resolved.error);
    }
    var p := resolved.value;
    if !Exists(host, p) {
      return Err("Path '" + p + "' does not exist");
    }
    if !IsDir(host, p) {
      return Err("'" + p + "' is not a directory");
    }
    var output, built := BuildTree(p, ReadDir(host, p), "", 0, maxDepth, "");
    if built.Err? {
      return Err("Failed to build directory tree: " + built.error);
    }
    ghost var drawn := Render(Level(p, ReadDir(host, p), 0, maxDepth, "").value);
    assert output == "" + drawn == drawn;
    return Ok(output);
  }

  /**
   * A rendered tree draws, at the root's empty prefix, one line per
   * readable entry of the root in name order; with `max_depth = 0` that is
   * all it draws.
   */
  lemma TreeOfRoot(path: string, host: Host, maxDepth: nat)
    requires DirectoryTree(path, host, maxDepth).Ok?
    ensures var p := GetPath(path, host.home).value;
      var l := ReadDir(host, p);
      && l.Listed?
      && Level(p, l, 0, maxDepth, "").Ok?
      && DirectoryTree(path, host, maxDepth).value == Render(Level(p, l, 0, maxDepth, "").value)
      && DrawsLevel(AtPrefix(Level(p, l, 0, maxDepth, "").value, ""), l.entries)
      && (maxDepth == 0 ==> forall ln :: ln in Level(p, l, 0, maxDepth, "").value ==> ln.prefix == "")
  {
    var p := GetPath(path, host.home).value;
    var l := ReadDir(host, p);
    LevelTopLines(p, l.entries, 0, maxDepth, "");
    if maxDepth == 0 {
      LastLevelIsFlat(p, l.entries, 0, "");
    }
  }

  /** A root that cannot be read fails the whole tree with the read error. */
  lemma TreeOfUnreadableRoot(path: string, host: Host, maxDepth: nat, e: string)
    requires GetPath(path, host.home).Ok?
    requires var p := GetPath(path, host.home).value; Node(host, p) == Some(Directory(ReadError(e)))
    ensures DirectoryTree(path, host, maxDepth)
      == Err("Failed to build directory tree: " + ReadDirFailure(GetPath(path, host.home).value, e))
  {
  }

  // ----- search_file -----

  function NoMatches(pattern: string, p: string): string
  {
    "No files matching pattern '" + pattern + "' found in '" + p + "'"
  }

  /** What `search_file` returns. */
  function SearchFileReply(path: string, pattern: string, host: Host): Result<string>
  {
    match GetPath(path, host.home)
    case Err(e) => Err(e)
    case Ok(p) =>
      match Search(p, ReadDir(host, p), pattern)
      case Err(e) => Err("Failed to search directory: " + e)
      case Ok(found) => if found == [] then Ok(NoMatches(pattern, p)) else Ok(JoinLines(found))
  }

  /** `search_file`: runs the search into an empty vector, then reports. */
  method SearchFile(path: string, pattern: string, host: Host) returns (r: Result<string>)
    ensures r == SearchFileReply(path, pattern, host)
  {
    var resolved := GetPath(path, host.home);
    if resolved.Err? {
      return Err(resolved.error);
    }
    var p := resolved.value;
    var matches, searched := SearchDirectory(p, ReadDir(host, p), pattern, []);
    if searched.Err? {
      return Err("Failed to search directory: " + searched.error);
    }
    assert matches == Search(p, ReadDir(host, p), pattern).value;
    if |matches| == 0 {
      return Ok(NoMatches(pattern, p));
    }
    return Ok(JoinLines(matches));
  }

  /**
   * On an intact directory tree, a successful search reports either the
   * "no files matching" message (no entry matched) or the matching paths,
   * one per line, which split back into exactly the recorded paths.
   */
  lemma SearchFileLines(path: string, pattern: string, host: Host)
    requires GetPath(path, host.home).Ok?
    requires var p := GetPath(path, host.home).value; Intact(ReadDir(host, p))
    ensures var p := GetPath(path, host.home).value;
      var found := Search(p, ReadDir(host, p), pattern);
      && found.Ok?
      && (found.value == [] ==> SearchFileReply(path, pattern, host) == Ok(NoMatches(pattern, p)))
      && (found.value != [] && (forall k :: 0 <= k < |found.value| ==> '\n' !in found.value[k]) ==>
            SearchFileReply(path, pattern, host).Ok? && SplitLines(SearchFileReply(path, pattern, host).value) == found.value)
  {
    var p := GetPath(path, host.home).value;
    SearchIsFilteredWalk(p, ReadDir(host, p), pattern);
    var found := Search(p, ReadDir(host, p), pattern);
    if found.value != [] && (forall k :: 0 <= k < |found.value| ==> '\n' !in found.value[k]) {
      SplitJoin(found.value);
    }
  }

  /** Searching a path that does not exist fails with the read error of its directory. */
  lemma SearchFileMissingPath(path: string, pattern: string, host: Host)
    requires GetPath(path, host.home).Ok? && !Exists(host, GetPath(path, host.home).value)
    ensures SearchFileReply(path, pattern, host) == Err("Failed to search directory: " + NotFound)
  {
  }
}
