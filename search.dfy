/**
 * The recursive pattern search behind the file-search operation: a
 * pre-order walk in directory-iterator order that records the full path of
 * every entry whose lower-cased name contains the lower-cased pattern, and
 * descends into every directory whether or not the directory matched.
 */
module PatternSearch {
  import opened Wrappers
  import opened Text
  import opened Paths
  import opened FsTree

  /** Whether an entry called `name` is recorded for `pattern`. */
  predicate NameMatches(name: string, pattern: string)
  {
    Contains(Lower(name), Lower(pattern))
  }

  /**
   * `search_directory(dir, pattern, _)` as the paths it pushes, or the
   * first error met: the directory's own read error or an entry's error,
   * both passed up as they are.
   */
  function Search(dir: string, l: Listing, pattern: string): Result<seq<string>>
    decreases l, 2
  {
    match l
    case ReadError(e) => Err(e)
    case Listed(entries) => SearchEntries(dir, l, |entries|, pattern)
  }

  /** The paths pushed for the first `k` entries of a listing. */
  function SearchEntries(dir: string, l: Listing, k: nat, pattern: string): Result<seq<string>>
    requires l.Listed? && k <= |l.entries|
    decreases l, 1, k
  {
    if k == 0 then Ok([])
    else match SearchEntries(dir, l, k - 1, pattern)
      case Err(e) => Err(e)
      case Ok(before) =>
        match SearchEntry(dir, l, k - 1, pattern)
        case Err(e) => Err(e)
        case Ok(mine) => Ok(before + mine)
  }

  /** The paths pushed for entry `i`: its own path if it matches, then its subtree's. */
  function SearchEntry(dir: string, l: Listing, i: nat, pattern: string): Result<seq<string>>
    requires l.Listed? && i < |l.entries|
    decreases l, 0
  {
    match l.entries[i]
    case BadEntry(e) => Err(e)
    case Named(name, kind) =>
      var path := Join(dir, name);
      var hit := if NameMatches(name, pattern) then [path] else [];
      if kind.Directory? then
        match Search(path, kind.listing, pattern)
        case Err(e) => Err(e)
        case Ok(sub) => Ok(hit + sub)
      else Ok(hit)
  }

  /** One entry met by the walk: its full path and its name. */
  datatype Visit = Visit(path: string, name: string)

  /**
   * The reference traversal: every readable entry of the tree rooted at
   * `dir`, each directory followed at once by its own subtree (pre-order).
   */
  function Walk(dir: string, l: Listing): seq<Visit>
    decreases l, 2
  {
    match l
    case ReadError(_) => []
    case Listed(entries) => WalkEntries(dir, l, |entries|)
  }

  function WalkEntries(dir: string, l: Listing, k: nat): seq<Visit>
    requires l.Listed? && k <= |l.entries|
    decreases l, 1, k
  {
    if k == 0 then [] else WalkEntries(dir, l, k - 1) + WalkEntry(dir, l, k - 1)
  }

  function WalkEntry(dir: string, l: Listing, i: nat): seq<Visit>
    requires l.Listed? && i < |l.entries|
    decreases l, 0
  {
    match l.entries[i]
    case BadEntry(_) => []
    case Named(name, kind) =>
      [Visit(Join(dir, name), name)] + (if kind.Directory? then Walk(Join(dir, name), kind.listing) else [])
  }

  /** Every directory of the tree could be read, and so could every entry. */
  predicate Intact(l: Listing)
    decreases l, 2
  {
    l.Listed? && IntactUpTo(l, |l.entries|)
  }

  predicate IntactUpTo(l: Listing, k: nat)
    requires l.Listed? && k <= |l.entries|
    decreases l, 1, k
  {
    k == 0 || (IntactUpTo(l, k - 1) && IntactEntry(l, k - 1))
  }

  predicate IntactEntry(l: Listing, i: nat)
    requires l.Listed? && i < |l.entries|
    decreases l, 0
  {
    l.entries[i].Named? && (l.entries[i].kind.Directory? ==> Intact(l.entries[i].kind.listing))
  }

  /** The paths of the visits whose names match, in visiting order. */
  function Hits(visits: seq<Visit>, pattern: string): (r: seq<string>)
    ensures |r| <= |visits|
  {
    if visits == [] then []
    else (if NameMatches(visits[0].name, pattern) then [visits[0].path] else []) + Hits(visits[1..], pattern)
  }

  lemma {:induction false} HitsAppend(a: seq<Visit>, b: seq<Visit>, pattern: string)
    ensures Hits(a + b, pattern) == Hits(a, pattern) + Hits(b, pattern)
  {
    if a == [] {
      assert a + b == b;
    } else {
      assert (a + b)[0] == a[0];
      assert (a + b)[1..] == a[1..] + b;
      HitsAppend(a[1..], b, pattern);
      var h := if NameMatches(a[0].name, pattern) then [a[0].path] else [];
      assert Hits(a + b, pattern) == h + (Hits(a[1..], pattern) + Hits(b, pattern));
      assert Hits(a, pattern) == h + Hits(a[1..], pattern);
    }
  }

  /** A path is a hit exactly when some visit with that path has a matching name. */
  lemma {:induction false} HitsMembership(visits: seq<Visit>, pattern: string, p: string)
    ensures p in Hits(visits, pattern) <==> exists v :: v in visits && v.path == p && NameMatches(v.name, pattern)
  {
    if visits != [] {
      HitsMembership(visits[1..], pattern, p);
      assert visits == [visits[0]] + visits[1..];
    }
  }

  /** The empty pattern matches every name, so every visited path is recorded. */
  lemma {:induction false} HitsOfEmptyPattern(visits: seq<Visit>)
    ensures |Hits(visits, "")| == |visits|
    ensures forall j :: 0 <= j < |visits| ==> Hits(visits, "")[j] == visits[j].path
  {
    if visits != [] {
      ContainsEmpty(Lower(visits[0].name));
      assert Lower("") == "";
      HitsOfEmptyPattern(visits[1..]);
    }
  }

  /**
   * The search succeeds exactly on an intact tree, and then records the
   * matching visits of the pre-order walk, in walk order.
   */
  lemma {:induction false} SearchIsFilteredWalk(dir: string, l: Listing, pattern: string)
    ensures Search(dir, l, pattern).Ok? <==> Intact(l)
    ensures Intact(l) ==> Search(dir, l, pattern).value == Hits(Walk(dir, l), pattern)
    decreases l, 2
  {
    if l.Listed? {
      SearchEntriesIsFiltered(dir, l, |l.entries|, pattern);
    }
  }

  lemma {:induction false} SearchEntriesIsFiltered(dir: string, l: Listing, k: nat, pattern: string)
    requires l.Listed? && k <= |l.entries|
    ensures SearchEntries(dir, l, k, pattern).Ok? <==> IntactUpTo(l, k)
    ensures IntactUpTo(l, k) ==> SearchEntries(dir, l, k, pattern).value == Hits(WalkEntries(dir, l, k), pattern)
    decreases l, 1, k
  {
    if k > 0 {
      var before, mine := SearchEntries(dir, l, k - 1, pattern), SearchEntry(dir, l, k - 1, pattern);
      var walked, visits := WalkEntries(dir, l, k - 1), WalkEntry(dir, l, k - 1);
      SearchEntriesIsFiltered(dir, l, k - 1, pattern);
      SearchEntryIsFiltered(dir, l, k - 1, pattern);
      assert IntactUpTo(l, k) <==> IntactUpTo(l, k - 1) && IntactEntry(l, k - 1);
      if IntactUpTo(l, k) {
        HitsAppend(walked, visits, pattern);
        assert WalkEntries(dir, l, k) == walked + visits;
        assert SearchEntries(dir, l, k, pattern) == Ok(before.value + mine.value);
      }
    }
  }

  lemma {:induction false} SearchEntryIsFiltered(dir: string, l: Listing, i: nat, pattern: string)
    requires l.Listed? && i < |l.entries|
    ensures SearchEntry(dir, l, i, pattern).Ok? <==> IntactEntry(l, i)
    ensures IntactEntry(l, i) ==> SearchEntry(dir, l, i, pattern).value == Hits(WalkEntry(dir, l, i), pattern)
    decreases l, 0
  {
    var e := l.entries[i];
    if e.Named? {
      var path := Join(dir, e.name);
      var head := [Visit(path, e.name)];
      assert [Visit(path, e.name)][1..] == [];
      if e.kind.Directory? {
        SearchIsFilteredWalk(path, e.kind.listing, pattern);
        HitsAppend(head, Walk(path, e.kind.listing), pattern);
      }
    }
  }

  /** A path is recorded exactly when the walk visits an entry at that path whose name matches. */
  lemma SearchMembership(dir: string, l: Listing, pattern: string, p: string)
    requires Intact(l)
    ensures Search(dir, l, pattern).Ok?
    ensures p in Search(dir, l, pattern).value <==>
      exists v :: v in Walk(dir, l) && v.path == p && NameMatches(v.name, pattern)
  {
    SearchIsFilteredWalk(dir, l, pattern);
    HitsMembership(Walk(dir, l), pattern, p);
  }

  /** Each visited entry is recorded at most once: never more paths than entries visited. */
  lemma SearchBound(dir: string, l: Listing, pattern: string)
    requires Intact(l)
    ensures Search(dir, l, pattern).Ok? && |Search(dir, l, pattern).value| <= |Walk(dir, l)|
  {
    SearchIsFilteredWalk(dir, l, pattern);
  }

  /** With the empty pattern every entry of an intact tree is recorded, in walk order. */
  lemma SearchEmptyPattern(dir: string, l: Listing)
    requires Intact(l)
    ensures Search(dir, l, "").Ok?
    ensures var r := Search(dir, l, "").value;
      |r| == |Walk(dir, l)| && forall j :: 0 <= j < |r| ==> r[j] == Walk(dir, l)[j].path
  {
    SearchIsFilteredWalk(dir, l, "");
    HitsOfEmptyPattern(Walk(dir, l));
  }

  /** Patterns equal up to case find the same paths and meet the same errors. */
  lemma {:induction false} SearchIgnoresCase(dir: string, l: Listing, p: string, q: string)
    requires Lower(p) == Lower(q)
    ensures Search(dir, l, p) == Search(dir, l, q)
    decreases l, 2
  {
    if l.Listed? {
      SearchEntriesIgnoreCase(dir, l, |l.entries|, p, q);
    }
  }

  lemma {:induction false} SearchEntriesIgnoreCase(dir: string, l: Listing, k: nat, p: string, q: string)
    requires Lower(p) == Lower(q)
    requires l.Listed? && k <= |l.entries|
    ensures SearchEntries(dir, l, k, p) == SearchEntries(dir, l, k, q)
    decreases l, 1, k
  {
    if k > 0 {
      SearchEntriesIgnoreCase(dir, l, k - 1, p, q);
      var e := l.entries[k - 1];
      if e.Named? && e.kind.Directory? {
        SearchIgnoresCase(Join(dir, e.name), e.kind.listing, p, q);
      }
    }
  }

  /** An error met anywhere ends the search: the result for more entries is the same error. */
  lemma {:induction false} SearchErrorPersists(dir: string, l: Listing, k: nat, k': nat, pattern: string)
    requires l.Listed? && k <= k' <= |l.entries|
    requires SearchEntries(dir, l, k, pattern).Err?
    ensures SearchEntries(dir, l, k', pattern) == SearchEntries(dir, l, k, pattern)
    decreases k' - k
  {
    if k' > k {
      SearchErrorPersists(dir, l, k, k' - 1, pattern);
    }
  }

  /** One more entry: the paths so far followed by that entry's own. */
  lemma SearchEntriesStep(dir: string, l: Listing, k: nat, pattern: string)
    requires l.Listed? && k < |l.entries|
    requires SearchEntries(dir, l, k, pattern).Ok?
    ensures var before := SearchEntries(dir, l, k, pattern).value;
      var mine := SearchEntry(dir, l, k, pattern);
      SearchEntries(dir, l, k + 1, pattern) == if mine.Ok? then Ok(before + mine.value) else Err(mine.error)
  {
  }

  /** The first entry whose search fails makes the whole directory fail with its error. */
  lemma SearchStopAt(dir: string, l: Listing, k: nat, pattern: string)
    requires l.Listed? && k < |l.entries|
    requires SearchEntries(dir, l, k, pattern).Ok?
    requires SearchEntry(dir, l, k, pattern).Err?
    ensures SearchEntries(dir, l, |l.entries|, pattern) == Err(SearchEntry(dir, l, k, pattern).error)
  {
    SearchEntriesStep(dir, l, k, pattern);
    SearchErrorPersists(dir, l, k + 1, |l.entries|, pattern);
  }

  /**
   * `search_directory`: appends to `matches` the paths of the tree at `dir`
   * (whose `read_dir` gives `l`) whose names match `pattern`, or fails with
   * the first error met. What a failed call leaves in `matches` is not
   * stated: the only caller discards it.
   */
  method SearchDirectory(dir: string, l: Listing, pattern: string, matches: seq<string>)
    returns (found: seq<string>, r: Result<()>)
    ensures r.Ok? <==> Search(dir, l, pattern).Ok?
    ensures r.Ok? ==> found == matches + Search(dir, l, pattern).value
    ensures r.Err? ==> r.error == Search(dir, l, pattern).error
    decreases l, 2
  {
    found := matches;
    if l.ReadError? {
      return found, Err(l.error);
    }
    found, r := SearchLevel(dir, l, pattern, matches);
  }

  /** The loop of `search_directory` over the entries of one readable directory. */
  method SearchLevel(dir: string, l: Listing, pattern: string, matches: seq<string>)
    returns (found: seq<string>, r: Result<()>)
    requires l.Listed?
    ensures r.Ok? <==> SearchEntries(dir, l, |l.entries|, pattern).Ok?
    ensures r.Ok? ==> found == matches + SearchEntries(dir, l, |l.entries|, pattern).value
    ensures r.Err? ==> r.error == SearchEntries(dir, l, |l.entries|, pattern).error
    decreases l, 1
  {
    found, r := matches, Ok(());
    var idx := 0;
    ghost var done: seq<string> := [];
    while idx < |l.entries|
      invariant SearchedUpTo(dir, l, idx, pattern, matches, found, done)
    {
      var next;
      next, r := VisitEntry(dir, l, idx, pattern, found);
      if r.Err? {
        SearchStopAt(dir, l, idx, pattern);
        return next, r;
      }
      ghost var mine := SearchEntry(dir, l, idx, pattern).value;
      SearchLevelStep(dir, l, idx, pattern, found, matches, done, next);
      found, done := next, done + mine;
      idx := idx + 1;
    }
    r := Ok(());
  }

  /**
   * The loop invariant of `search_directory`: the first `idx` entries were
   * searched without error, and `found` is `matches` followed by their paths.
   */
  ghost predicate SearchedUpTo(dir: string, l: Listing, idx: nat, pattern: string,
                               matches: seq<string>, found: seq<string>, done: seq<string>)
    requires l.Listed?
  {
    idx <= |l.entries| && SearchEntries(dir, l, idx, pattern) == Ok(done) && found == matches + done
  }

  /** One successful entry extends both the search result and the list by that entry's paths. */
  lemma SearchLevelStep(dir: string, l: Listing, idx: nat, pattern: string,
                        found: seq<string>, matches: seq<string>, done: seq<string>, next: seq<string>)
    requires l.Listed? && idx < |l.entries| && SearchedUpTo(dir, l, idx, pattern, matches, found, done)
    requires SearchEntry(dir, l, idx, pattern).Ok? && next == found + SearchEntry(dir, l, idx, pattern).value
    ensures SearchedUpTo(dir, l, idx + 1, pattern, matches, next, done + SearchEntry(dir, l, idx, pattern).value)
  {
    assert matches + done + SearchEntry(dir, l, idx, pattern).value == matches + (done + SearchEntry(dir, l, idx, pattern).value);
    SearchEntriesStep(dir, l, idx, pattern);
  }

  /** The body of the loop of `search_directory`, for entry `idx`. */
  method VisitEntry(dir: string, l: Listing, idx: nat, pattern: string, matches: seq<string>)
    returns (found: seq<string>, r: Result<()>)
    requires l.Listed? && idx < |l.entries|
    ensures r.Ok? <==> SearchEntry(dir, l, idx, pattern).Ok?
    ensures r.Ok? ==> found == matches + SearchEntry(dir, l, idx, pattern).value
    ensures r.Err? ==> r.error == SearchEntry(dir, l, idx, pattern).error
    decreases l, 0
  {
    found, r := matches, Ok(());
    var entry := l.entries[idx];
    if entry.BadEntry? {
      return found, Err(entry.error);
    }
    var path := Join(dir, entry.name);
    var name := Lower(entry.name);
    if Contains(name, Lower(pattern)) {
      found := found + [path];
    }
    if entry.kind.Directory? {
      var sub;
      sub, r := SearchDirectory(path, entry.kind.listing, pattern, found);
      if r.Err? {
        return sub, r;
      }
      found := sub;
    }
  }

  /** Which of `foo.txt`, `bar.txt` and `Foobar.md` the pattern `foo` picks. */
  lemma FlatNames()
    ensures NameMatches("foo.txt", "foo") && !NameMatches("bar.txt", "foo") && NameMatches("Foobar.md", "foo")
  {
    MatchesAtStart("foo.txt", "foo");
    MatchesAtStart("Foobar.md", "foo");
    assert Lower("foo") == "foo";
    MissingCharNotContained(Lower("bar.txt"), "foo", 0);
  }

  /** A directory holding `foo.txt`, `bar.txt` and `Foobar.md`, searched for `foo`. */
  lemma FlatExample(l: Listing)
    requires l == Listed([Named("foo.txt", File), Named("bar.txt", File), Named("Foobar.md", File)])
    ensures Search("/d", l, "foo") == Ok([Join("/d", "foo.txt"), Join("/d", "Foobar.md")])
  {
    FlatNames();
    var a: seq<string>, b: seq<string> := [Join("/d", "foo.txt")], [Join("/d", "Foobar.md")];
    assert [] + a == a + [] == a;
    assert SearchEntries("/d", l, 1, "foo") == Ok(a);
    assert SearchEntries("/d", l, 2, "foo") == Ok(a);
    assert SearchEntries("/d", l, 3, "foo") == Ok(a + b);
    assert a + b == [Join("/d", "foo.txt"), Join("/d", "Foobar.md")];
  }

  lemma NestedNames()
    ensures NameMatches("docs", "DOC") && NameMatches("docs.md", "DOC")
  {
    MatchesAtStart("docs.md", "DOC");
    MatchesAtStart("docs", "DOC");
  }

  /** A matching directory is recorded before the matching entries below it. */
  lemma NestedExample(inner: Listing, l: Listing)
    requires inner == Listed([Named("docs.md", File)])
    requires l == Listed([Named("docs", Directory(inner))])
    ensures Search("/d", l, "DOC") == Ok([Join("/d", "docs"), Join(Join("/d", "docs"), "docs.md")])
  {
    NestedNames();
    var docs := Join("/d", "docs");
    var a: seq<string>, b: seq<string> := [docs], [Join(docs, "docs.md")];
    assert [] + b == b;
    assert Search(docs, inner, "DOC") == Ok(b);
    assert SearchEntry("/d", l, 0, "DOC") == Ok(a + b);
    assert [] + (a + b) == a + b;
    assert SearchEntries("/d", l, 1, "DOC") == Ok(a + b);
    assert a + b == [docs, Join(docs, "docs.md")];
  }

  /** A name whose lower-cased form starts with the lower-cased pattern matches it. */
  lemma MatchesAtStart(name: string, pattern: string)
    requires StartsWith(Lower(name), Lower(pattern))
    ensures NameMatches(name, pattern)
  {
    ContainsAt(Lower(name), Lower(pattern), 0);
  }
}
