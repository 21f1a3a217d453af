/**
 * The tree renderer behind the directory-tree operation: a depth-bounded,
 * name-sorted, pre-order walk that appends one connector-prefixed line per
 * readable entry to an output buffer.
 */
module TreeRender {
  import opened Wrappers
  import opened Text
  import opened Paths
  import opened FsTree

  const Tee := "\U{251C}\U{2500}\U{2500} "      // "├── "
  const Elbow := "\U{2514}\U{2500}\U{2500} "    // "└── "
  const Pipe := "\U{2502}   "                   // "│   "
  const Blank := "    "
  const DirMarker := "[DIR] "

  /** One rendered line: `prefix + connector + marker + name`. */
  datatype TreeLine = TreeLine(prefix: string, last: bool, marker: string, name: string)

  function Connector(last: bool): string
  {
    if last then Elbow else Tee
  }

  /** What a child level's prefix adds to its parent's. */
  function Extension(last: bool): string
  {
    if last then Blank else Pipe
  }

  function Marker(k: Kind): string
  {
    match k
    case Directory(_) => DirMarker
    case File => ""
    case UnknownType => "[?] "
  }

  function LineText(ln: TreeLine): string
  {
    ln.prefix + Connector(ln.last) + ln.marker + ln.name + "\n"
  }

  /** The text the lines make in the output buffer. */
  function Render(lines: seq<TreeLine>): string
  {
    if lines == [] then "" else LineText(lines[0]) + Render(lines[1..])
  }

  lemma {:induction false} RenderAppend(a: seq<TreeLine>, b: seq<TreeLine>)
    ensures Render(a + b) == Render(a) + Render(b)
  {
    if a == [] {
      assert a + b == b;
    } else {
      assert (a + b)[1..] == a[1..] + b;
      RenderAppend(a[1..], b);
    }
  }

  lemma RenderSingle(ln: TreeLine)
    ensures Render([ln]) == LineText(ln)
  {
    assert [ln][1..] == [];
  }

  lemma AppendAssociative(a: string, b: string, c: string)
    ensures a + (b + c) == (a + b) + c
  {
  }

  function ReadDirFailure(dir: string, error: string): string
  {
    "Failed to read directory '" + dir + "': " + error
  }

  /** The valid arguments of `Lines`: `sorted` is `l`'s entries in name order. */
  predicate Arranged(l: Listing, sorted: seq<Entry>)
  {
    l.Listed? && sorted == SortByName(l.entries)
  }

  /** The line entry `i` of a level gets; only the final index is drawn as the last one. */
  function HeadLine(sorted: seq<Entry>, prefix: string, i: nat): TreeLine
    requires i < |sorted| && sorted[i].Named?
  {
    TreeLine(prefix, i == |sorted| - 1, Marker(sorted[i].kind), sorted[i].name)
  }

  /**
   * `build_tree(dir, _, depth, maxDepth, prefix)` as the lines it appends,
   * or the error that aborts it.
   */
  function Level(dir: string, l: Listing, depth: nat, maxDepth: nat, prefix: string): Result<seq<TreeLine>>
    decreases l, 2
  {
    if depth > maxDepth then Ok([])
    else match l
      case ReadError(e) => Err(ReadDirFailure(dir, e))
      case Listed(entries) => Lines(dir, l, SortByName(entries), |entries|, depth, maxDepth, prefix)
  }

  /** The lines of the first `k` sorted entries of a level, subtrees included. */
  function Lines(dir: string, l: Listing, sorted: seq<Entry>, k: nat, depth: nat, maxDepth: nat, prefix: string)
    : Result<seq<TreeLine>>
    requires Arranged(l, sorted) && k <= |sorted|
    decreases l, 1, k
  {
    if k == 0 then Ok([])
    else match Lines(dir, l, sorted, k - 1, depth, maxDepth, prefix)
      case Err(e) => Err(e)
      case Ok(before) =>
        match EntryLines(dir, l, sorted, k - 1, depth, maxDepth, prefix)
        case Err(e) => Err(e)
        case Ok(mine) => Ok(before + mine)
  }

  /** The lines of sorted entry `i`: nothing for an unreadable entry, its line, then its subtree. */
  function EntryLines(dir: string, l: Listing, sorted: seq<Entry>, i: nat, depth: nat, maxDepth: nat, prefix: string)
    : Result<seq<TreeLine>>
    requires Arranged(l, sorted) && i < |sorted|
    decreases l, 0
  {
    match sorted[i]
    case BadEntry(_) => Ok([])
    case Named(name, kind) =>
      var line := HeadLine(sorted, prefix, i);
      if kind.Directory? then
        assert sorted[i] in multiset(sorted);
        assert sorted[i] in l.entries;
        match Level(Join(dir, name), kind.listing, depth + 1, maxDepth, prefix + Extension(line.last))
        case Err(e) => Err(e)
        case Ok(sub) => Ok([line] + sub)
      else Ok([line])
  }

  lemma {:induction false} LinesErrorPersists(dir: string, l: Listing, sorted: seq<Entry>, k: nat, k': nat,
                                              depth: nat, maxDepth: nat, prefix: string)
    requires Arranged(l, sorted) && k <= k' <= |sorted|
    requires Lines(dir, l, sorted, k, depth, maxDepth, prefix).Err?
    ensures Lines(dir, l, sorted, k', depth, maxDepth, prefix) == Lines(dir, l, sorted, k, depth, maxDepth, prefix)
    decreases k' - k
  {
    if k' > k {
      LinesErrorPersists(dir, l, sorted, k, k' - 1, depth, maxDepth, prefix);
    }
  }

  /** One more entry: the lines so far followed by that entry's own lines. */
  lemma LinesStep(dir: string, l: Listing, sorted: seq<Entry>, k: nat, depth: nat, maxDepth: nat, prefix: string)
    requires Arranged(l, sorted) && k < |sorted|
    requires Lines(dir, l, sorted, k, depth, maxDepth, prefix).Ok?
    ensures var before := Lines(dir, l, sorted, k, depth, maxDepth, prefix).value;
      var mine := EntryLines(dir, l, sorted, k, depth, maxDepth, prefix);
      Lines(dir, l, sorted, k + 1, depth, maxDepth, prefix)
        == if mine.Ok? then Ok(before + mine.value) else Err(mine.error)
  {
  }

  /** The first entry whose lines fail makes the whole level fail with its error. */
  lemma LinesStopAt(dir: string, l: Listing, sorted: seq<Entry>, k: nat, depth: nat, maxDepth: nat, prefix: string)
    requires Arranged(l, sorted) && k < |sorted|
    requires Lines(dir, l, sorted, k, depth, maxDepth, prefix).Ok?
    requires EntryLines(dir, l, sorted, k, depth, maxDepth, prefix).Err?
    ensures Lines(dir, l, sorted, |sorted|, depth, maxDepth, prefix)
      == Err(EntryLines(dir, l, sorted, k, depth, maxDepth, prefix).error)
  {
    LinesStep(dir, l, sorted, k, depth, maxDepth, prefix);
    LinesErrorPersists(dir, l, sorted, k + 1, |sorted|, depth, maxDepth, prefix);
  }

  /**
   * Where a line of a level with prefix `p` may stand, `budget` levels of
   * recursion being left: its prefix extends `p`, by a child extension
   * unless it is `p` itself, and by at most four characters per level.
   */
  predicate Below(q: string, p: string, budget: int)
  {
    StartsWith(q, p) && |q| <= |p| + 4 * budget
    && (q == p || StartsWith(q, p + Blank) || StartsWith(q, p + Pipe))
  }

  lemma BelowExtension(q: string, p: string, last: bool, budget: int)
    requires Below(q, p + Extension(last), budget - 1)
    ensures Below(q, p, budget)
  {
    var e := Extension(last);
    assert |e| == 4;
    assert q[..|p|] == q[..|p + e|][..|p|];
  }

  /**
   * Every line of a level starts with that level's prefix, a child level's
   * lines start with the prefix plus `"    "` or `"│   "`, and a level
   * deeper than `maxDepth` appends nothing.
   */
  lemma {:induction false} LevelPrefixes(dir: string, l: Listing, depth: nat, maxDepth: nat, prefix: string)
    requires Level(dir, l, depth, maxDepth, prefix).Ok?
    ensures depth > maxDepth ==> Level(dir, l, depth, maxDepth, prefix).value == []
    ensures forall ln :: ln in Level(dir, l, depth, maxDepth, prefix).value ==> Below(ln.prefix, prefix, maxDepth - depth)
    decreases l, 2
  {
    if depth <= maxDepth {
      LinesPrefixes(dir, l, SortByName(l.entries), |l.entries|, depth, maxDepth, prefix);
    }
  }

  lemma {:induction false} LinesPrefixes(dir: string, l: Listing, sorted: seq<Entry>, k: nat,
                                         depth: nat, maxDepth: nat, prefix: string)
    requires Arranged(l, sorted) && k <= |sorted| && depth <= maxDepth
    requires Lines(dir, l, sorted, k, depth, maxDepth, prefix).Ok?
    ensures forall ln :: ln in Lines(dir, l, sorted, k, depth, maxDepth, prefix).value ==> Below(ln.prefix, prefix, maxDepth - depth)
    decreases l, 1, k
  {
    if k > 0 {
      LinesPrefixes(dir, l, sorted, k - 1, depth, maxDepth, prefix);
      var e := sorted[k - 1];
      if e.Named? {
        var head := HeadLine(sorted, prefix, k - 1);
        assert Below(head.prefix, prefix, maxDepth - depth);
        if e.kind.Directory? {
          assert e in multiset(l.entries);
          assert e in l.entries;
          var p' := prefix + Extension(head.last);
          LevelPrefixes(Join(dir, e.name), e.kind.listing, depth + 1, maxDepth, p');
          forall ln | ln in Level(Join(dir, e.name), e.kind.listing, depth + 1, maxDepth, p').value
            ensures Below(ln.prefix, prefix, maxDepth - depth)
          {
            BelowExtension(ln.prefix, prefix, head.last, maxDepth - depth);
          }
        }
      }
    }
  }

  /**
   * Line `j` lies in the subtree of the level's own line `i`: no own line
   * comes between them, line `i` is a directory's, and line `j`'s prefix
   * continues the level's with the extension that line `i`'s connector
   * calls for (`"    "` under `└── `, `"│   "` under `├── `).
   */
  predicate Nests(lines: seq<TreeLine>, prefix: string, i: nat, j: nat)
    requires i < j < |lines|
  {
    && lines[i].prefix == prefix
    && lines[i].marker == DirMarker
    && StartsWith(lines[j].prefix, prefix + Extension(lines[i].last))
    && forall m :: i < m <= j ==> lines[m].prefix != prefix
  }

  /** Every line not at the level's prefix belongs to the subtree of the nearest own line before it. */
  predicate Nested(lines: seq<TreeLine>, prefix: string)
  {
    forall j :: 0 <= j < |lines| && lines[j].prefix != prefix ==>
      exists i :: 0 <= i < j && Nests(lines, prefix, i, j)
  }

  /** The lines of one entry: its own line first, then only lines under it. */
  predicate Block(b: seq<TreeLine>, prefix: string)
  {
    b == [] ||
      (&& b[0].prefix == prefix
       && (|b| > 1 ==> b[0].marker == DirMarker)
       && forall m :: 1 <= m < |b| ==> StartsWith(b[m].prefix, prefix + Extension(b[0].last)))
  }

  lemma NestedAppend(a: seq<TreeLine>, b: seq<TreeLine>, prefix: string)
    requires Nested(a, prefix) && Block(b, prefix)
    ensures Nested(a + b, prefix)
  {
    var s := a + b;
    forall j | 0 <= j < |s| && s[j].prefix != prefix
      ensures exists i :: 0 <= i < j && Nests(s, prefix, i, j)
    {
      if j < |a| {
        assert a[j] == s[j];
        var i :| 0 <= i < j && Nests(a, prefix, i, j);
        assert forall m :: i <= m <= j ==> s[m] == a[m];
        assert Nests(s, prefix, i, j);
      } else {
        var i := |a|;
        assert j > i by {
          assert s[i] == b[0];
        }
        var ext := prefix + Extension(s[i].last);
        forall m | i < m <= j ensures s[m].prefix != prefix {
          assert s[m] == b[m - i];
          assert StartsWith(s[m].prefix, ext);
          assert |ext| > |prefix|;
        }
        assert Nests(s, prefix, i, j);
      }
    }
  }

  /** An entry draws its own line, then, for a directory, its subtree under the matching extension. */
  lemma EntryBlock(dir: string, l: Listing, sorted: seq<Entry>, i: nat, depth: nat, maxDepth: nat, prefix: string)
    requires Arranged(l, sorted) && i < |sorted|
    requires EntryLines(dir, l, sorted, i, depth, maxDepth, prefix).Ok?
    ensures Block(EntryLines(dir, l, sorted, i, depth, maxDepth, prefix).value, prefix)
  {
    var e := sorted[i];
    if e.Named? {
      var head := HeadLine(sorted, prefix, i);
      if e.kind.Directory? {
        assert e in multiset(l.entries);
        assert e in l.entries;
        var p' := prefix + Extension(head.last);
        var sub := Level(Join(dir, e.name), e.kind.listing, depth + 1, maxDepth, p');
        assert sub.Ok?;
        assert EntryLines(dir, l, sorted, i, depth, maxDepth, prefix) == Ok([head] + sub.value);
        LevelPrefixes(Join(dir, e.name), e.kind.listing, depth + 1, maxDepth, p');
        DirBlock(head, sub.value, prefix, maxDepth - (depth + 1));
      } else {
        assert EntryLines(dir, l, sorted, i, depth, maxDepth, prefix) == Ok([head]);
      }
    }
  }

  lemma DirBlock(head: TreeLine, sub: seq<TreeLine>, prefix: string, budget: int)
    requires head.prefix == prefix && head.marker == DirMarker
    requires forall ln :: ln in sub ==> Below(ln.prefix, prefix + Extension(head.last), budget)
    ensures Block([head] + sub, prefix)
  {
    var b := [head] + sub;
    forall m | 1 <= m < |b| ensures StartsWith(b[m].prefix, prefix + Extension(head.last)) {
      assert b[m] == sub[m - 1] && sub[m - 1] in sub;
    }
  }

  /**
   * In a rendered level, every line below the level's own lines follows the
   * directory line it belongs to, with no other own line in between, and
   * its prefix extends the level's by `"    "` when that directory is the
   * last entry and by `"│   "` otherwise.
   */
  lemma LevelNested(dir: string, l: Listing, depth: nat, maxDepth: nat, prefix: string)
    requires Level(dir, l, depth, maxDepth, prefix).Ok?
    ensures Nested(Level(dir, l, depth, maxDepth, prefix).value, prefix)
  {
    if depth <= maxDepth {
      LinesNested(dir, l, SortByName(l.entries), |l.entries|, depth, maxDepth, prefix);
    }
  }

  lemma {:induction false} LinesNested(dir: string, l: Listing, sorted: seq<Entry>, k: nat,
                                       depth: nat, maxDepth: nat, prefix: string)
    requires Arranged(l, sorted) && k <= |sorted|
    requires Lines(dir, l, sorted, k, depth, maxDepth, prefix).Ok?
    ensures Nested(Lines(dir, l, sorted, k, depth, maxDepth, prefix).value, prefix)
    decreases k
  {
    if k > 0 {
      var before := Lines(dir, l, sorted, k - 1, depth, maxDepth, prefix);
      var mine := EntryLines(dir, l, sorted, k - 1, depth, maxDepth, prefix);
      assert before.Ok? && mine.Ok?;
      assert Lines(dir, l, sorted, k, depth, maxDepth, prefix).value == before.value + mine.value;
      LinesNested(dir, l, sorted, k - 1, depth, maxDepth, prefix);
      EntryBlock(dir, l, sorted, k - 1, depth, maxDepth, prefix);
      NestedAppend(before.value, mine.value, prefix);
    }
  }

  /** The lines drawn at the level whose prefix is `p`, in output order. */
  function AtPrefix(lines: seq<TreeLine>, p: string): seq<TreeLine>
  {
    if lines == [] then []
    else (if lines[0].prefix == p then [lines[0]] else []) + AtPrefix(lines[1..], p)
  }

  lemma {:induction false} AtPrefixAppend(a: seq<TreeLine>, b: seq<TreeLine>, p: string)
    ensures AtPrefix(a + b, p) == AtPrefix(a, p) + AtPrefix(b, p)
  {
    if a == [] {
      assert a + b == b;
    } else {
      assert (a + b)[0] == a[0];
      assert (a + b)[1..] == a[1..] + b;
      AtPrefixAppend(a[1..], b, p);
      var h := if a[0].prefix == p then [a[0]] else [];
      assert AtPrefix(a + b, p) == h + (AtPrefix(a[1..], p) + AtPrefix(b, p));
      assert AtPrefix(a, p) == h + AtPrefix(a[1..], p);
    }
  }

  lemma {:induction false} AtPrefixNone(lines: seq<TreeLine>, p: string)
    requires forall ln :: ln in lines ==> ln.prefix != p
    ensures AtPrefix(lines, p) == []
  {
    if lines != [] {
      AtPrefixNone(lines[1..], p);
    }
  }

  lemma {:induction false} AtPrefixAll(lines: seq<TreeLine>, p: string)
    requires forall ln :: ln in lines ==> ln.prefix == p
    ensures AtPrefix(lines, p) == lines
  {
    if lines != [] {
      AtPrefixAll(lines[1..], p);
    }
  }

  /** The lines of the first `k` sorted entries of a level, without their subtrees. */
  function HeadLines(sorted: seq<Entry>, p: string, k: nat): seq<TreeLine>
    requires k <= |sorted|
  {
    if k == 0 then []
    else HeadLines(sorted, p, k - 1) + (if sorted[k - 1].Named? then [HeadLine(sorted, p, k - 1)] else [])
  }

  /** Subtrees aside, a level draws exactly the head lines of its entries. */
  lemma {:induction false} LinesAtPrefix(dir: string, l: Listing, sorted: seq<Entry>, k: nat,
                                         depth: nat, maxDepth: nat, prefix: string)
    requires Arranged(l, sorted) && k <= |sorted| && depth <= maxDepth
    requires Lines(dir, l, sorted, k, depth, maxDepth, prefix).Ok?
    ensures AtPrefix(Lines(dir, l, sorted, k, depth, maxDepth, prefix).value, prefix) == HeadLines(sorted, prefix, k)
    decreases k
  {
    if k > 0 {
      LinesAtPrefix(dir, l, sorted, k - 1, depth, maxDepth, prefix);
      var before := Lines(dir, l, sorted, k - 1, depth, maxDepth, prefix).value;
      var mine := EntryLines(dir, l, sorted, k - 1, depth, maxDepth, prefix).value;
      AtPrefixAppend(before, mine, prefix);
      var e := sorted[k - 1];
      if e.Named? {
        var head := HeadLine(sorted, prefix, k - 1);
        if e.kind.Directory? {
          var p' := prefix + Extension(head.last);
          var sub := Level(Join(dir, e.name), e.kind.listing, depth + 1, maxDepth, p').value;
          assert mine == [head] + sub;
          LevelPrefixes(Join(dir, e.name), e.kind.listing, depth + 1, maxDepth, p');
          forall ln | ln in sub ensures ln.prefix != prefix {
            assert StartsWith(ln.prefix, p');
          }
          AtPrefixNone(sub, prefix);
          AtPrefixAppend([head], sub, prefix);
        } else {
          assert mine == [head];
        }
      } else {
        assert mine == [];
      }
    }
  }

  /** The indexes of the readable entries among the first `k` sorted ones, ascending. */
  function Origins(sorted: seq<Entry>, k: nat): (r: seq<nat>)
    requires k <= |sorted|
    ensures forall j :: 0 <= j < |r| ==> r[j] < k && sorted[r[j]].Named?
    ensures forall a, b :: 0 <= a < b < |r| ==> r[a] < r[b]
    ensures forall i :: 0 <= i < k && sorted[i].Named? ==> i in r
  {
    if k == 0 then []
    else Origins(sorted, k - 1) + (if sorted[k - 1].Named? then [k - 1] else [])
  }

  /** Head line `j` is the line of the `j`-th readable entry. */
  lemma {:induction false} HeadLinesFrom(sorted: seq<Entry>, p: string, k: nat)
    requires k <= |sorted|
    ensures |HeadLines(sorted, p, k)| == |Origins(sorted, k)|
    ensures forall j :: 0 <= j < |HeadLines(sorted, p, k)| ==>
      HeadLines(sorted, p, k)[j] == HeadLine(sorted, p, Origins(sorted, k)[j])
    decreases k
  {
    if k > 0 {
      HeadLinesFrom(sorted, p, k - 1);
    }
  }

  lemma HeadLinesOrdered(sorted: seq<Entry>, p: string, k: nat)
    requires SortedByName(sorted) && k <= |sorted|
    ensures forall a, b :: 0 <= a < b < |HeadLines(sorted, p, k)| ==>
      StrLe(HeadLines(sorted, p, k)[a].name, HeadLines(sorted, p, k)[b].name)
  {
    HeadLinesFrom(sorted, p, k);
    var o := Origins(sorted, k);
    forall a, b | 0 <= a < b < |o| ensures KeyLe(sorted[o[a]], sorted[o[b]]) {
    }
  }

  /** How many of the entries could be read. */
  function CountNamed(s: seq<Entry>): nat
  {
    if s == [] then 0 else (if s[0].Named? then 1 else 0) + CountNamed(s[1..])
  }

  lemma {:induction false} CountNamedAppend(a: seq<Entry>, b: seq<Entry>)
    ensures CountNamed(a + b) == CountNamed(a) + CountNamed(b)
  {
    if a == [] {
      assert a + b == b;
    } else {
      assert (a + b)[1..] == a[1..] + b;
      CountNamedAppend(a[1..], b);
    }
  }

  lemma {:induction false} CountNamedInsert(x: Entry, s: seq<Entry>)
    ensures CountNamed(Insert(x, s)) == CountNamed(s) + (if x.Named? then 1 else 0)
  {
    if s != [] && !KeyLe(x, s[0]) {
      CountNamedInsert(x, s[1..]);
      assert Insert(x, s) == [s[0]] + Insert(x, s[1..]);
    }
  }

  /** Sorting keeps the number of readable entries. */
  lemma {:induction false} CountNamedSorted(s: seq<Entry>)
    ensures CountNamed(SortByName(s)) == CountNamed(s)
  {
    if s != [] {
      CountNamedSorted(s[1..]);
      CountNamedInsert(s[0], SortByName(s[1..]));
    }
  }

  lemma {:induction false} HeadLinesCount(sorted: seq<Entry>, p: string, k: nat)
    requires k <= |sorted|
    ensures |HeadLines(sorted, p, k)| == CountNamed(sorted[..k])
    decreases k
  {
    if k > 0 {
      HeadLinesCount(sorted, p, k - 1);
      assert sorted[..k] == sorted[..k - 1] + [sorted[k - 1]];
      CountNamedAppend(sorted[..k - 1], [sorted[k - 1]]);
      assert [sorted[k - 1]][1..] == [];
    }
  }

  /**
   * Only the final head line carries the closing connector: unreadable
   * entries sort first, so the last index holds a readable entry whenever
   * the level draws anything.
   */
  lemma HeadLinesLast(sorted: seq<Entry>, p: string)
    requires SortedByName(sorted)
    ensures var h := HeadLines(sorted, p, |sorted|);
      forall j :: 0 <= j < |h| ==> (h[j].last <==> j == |h| - 1)
  {
    var n := |sorted|;
    HeadLinesFrom(sorted, p, n);
    var o := Origins(sorted, n);
    if |o| > 0 {
      var m := |o| - 1;
      assert sorted[n - 1].Named? by {
        if o[0] < n - 1 {
          assert KeyLe(sorted[o[0]], sorted[n - 1]);
        }
      }
      assert n - 1 in o;
      assert o[m] == n - 1 by {
        var t :| 0 <= t < |o| && o[t] == n - 1;
        assert o[t] <= o[m];
      }
      var h := HeadLines(sorted, p, n);
      forall j | 0 <= j < |h| ensures h[j].last <==> j == m {
        if j < m {
          assert o[j] < o[m];
        }
      }
    }
  }

  /** Line `ln` is drawn for entry `e`: a readable entry, by its name and the marker of its type. */
  predicate Names(ln: TreeLine, e: Entry)
  {
    e.Named? && ln.name == e.name && ln.marker == Marker(e.kind)
  }

  /** Line `ln` is drawn for one of `entries`. */
  predicate DrawnFor(ln: TreeLine, entries: seq<Entry>)
  {
    exists e :: e in entries && Names(ln, e)
  }

  /** Entry `e` has a line among `top`. */
  predicate HasLine(e: Entry, top: seq<TreeLine>)
  {
    exists j :: 0 <= j < |top| && Names(top[j], e)
  }

  /**
   * What a level draws at its own prefix, given its directory's entries:
   * one line per readable entry, in ascending name order, each line naming
   * an entry with the marker of that entry's type, every readable entry
   * named, and only the final line with the closing connector.
   */
  predicate DrawsLevel(top: seq<TreeLine>, entries: seq<Entry>)
  {
    && |top| == CountNamed(entries)
    && (forall j :: 0 <= j < |top| ==> (top[j].last <==> j == |top| - 1))
    && (forall a, b :: 0 <= a < b < |top| ==> StrLe(top[a].name, top[b].name))
    && (forall j :: 0 <= j < |top| ==> DrawnFor(top[j], entries))
    && (forall e :: e in entries && e.Named? ==> HasLine(e, top))
  }

  lemma HeadLinesNameEntries(entries: seq<Entry>, sorted: seq<Entry>, prefix: string)
    requires multiset(sorted) == multiset(entries)
    ensures var top := HeadLines(sorted, prefix, |sorted|);
      && (forall j :: 0 <= j < |top| ==> DrawnFor(top[j], entries))
      && (forall e :: e in entries && e.Named? ==> HasLine(e, top))
  {
    var n := |sorted|;
    var top := HeadLines(sorted, prefix, n);
    var o := Origins(sorted, n);
    HeadLinesFrom(sorted, prefix, n);
    forall j | 0 <= j < |top| ensures DrawnFor(top[j], entries) {
      assert sorted[o[j]] in multiset(entries);
      assert Names(top[j], sorted[o[j]]);
    }
    forall e | e in entries && e.Named? ensures HasLine(e, top) {
      assert e in multiset(sorted);
      var i :| 0 <= i < n && sorted[i] == e;
      assert i in o;
      var j :| 0 <= j < |o| && o[j] == i;
      assert Names(top[j], e);
    }
  }

  lemma HeadLinesDrawLevel(entries: seq<Entry>, prefix: string)
    ensures var sorted := SortByName(entries);
      DrawsLevel(HeadLines(sorted, prefix, |sorted|), entries)
  {
    var sorted := SortByName(entries);
    var n := |sorted|;
    HeadLinesCount(sorted, prefix, n);
    assert sorted[..n] == sorted;
    CountNamedSorted(entries);
    HeadLinesLast(sorted, prefix);
    HeadLinesOrdered(sorted, prefix, n);
    HeadLinesNameEntries(entries, sorted, prefix);
  }

  /**
   * The lines a level draws at its own prefix are one per readable entry,
   * in ascending name order, with markers and connectors as `DrawsLevel`
   * says.
   */
  lemma LevelTopLines(dir: string, entries: seq<Entry>, depth: nat, maxDepth: nat, prefix: string)
    requires depth <= maxDepth
    requires Level(dir, Listed(entries), depth, maxDepth, prefix).Ok?
    ensures DrawsLevel(AtPrefix(Level(dir, Listed(entries), depth, maxDepth, prefix).value, prefix), entries)
  {
    LinesAtPrefix(dir, Listed(entries), SortByName(entries), |entries|, depth, maxDepth, prefix);
    HeadLinesDrawLevel(entries, prefix);
  }

  /**
   * At the last level allowed (`depth == maxDepth`, `max_depth = 0` for the
   * root) every line is drawn at the level's own prefix: the immediate
   * entries, and nothing of their subtrees.
   */
  lemma LastLevelIsFlat(dir: string, entries: seq<Entry>, depth: nat, prefix: string)
    requires Level(dir, Listed(entries), depth, depth, prefix).Ok?
    ensures var lines := Level(dir, Listed(entries), depth, depth, prefix).value;
      lines == AtPrefix(lines, prefix) && forall ln :: ln in lines ==> ln.prefix == prefix
  {
    var lines := Level(dir, Listed(entries), depth, depth, prefix).value;
    LevelPrefixes(dir, Listed(entries), depth, depth, prefix);
    forall ln | ln in lines ensures ln.prefix == prefix {
      assert Below(ln.prefix, prefix, 0);
    }
    AtPrefixAll(lines, prefix);
  }

  /**
   * `build_tree`: appends to `output` the rendering of directory `dir`
   * (whose `read_dir` gives `l`) at `depth`, or fails with the first
   * directory-read error met. What a failed call leaves in the buffer is
   * not stated: the only caller discards it.
   */
  method BuildTree(dir: string, l: Listing, output: string, depth: nat, maxDepth: nat, prefix: string)
    returns (out: string, r: Result<()>)
    ensures r.Ok? <==> Level(dir, l, depth, maxDepth, prefix).Ok?
    ensures r.Ok? ==> out == output + Render(Level(dir, l, depth, maxDepth, prefix).value)
    ensures r.Err? ==> r.error == Level(dir, l, depth, maxDepth, prefix).error
    decreases l, 2
  {
    out := output;
    if depth > maxDepth {
      return out, Ok(());
    }
    if l.ReadError? {
      return out, Err(ReadDirFailure(dir, l.error));
    }
    var entries := SortByName(l.entries);
    out, r := AppendLevel(dir, l, entries, output, depth, maxDepth, prefix);
  }

  /** The loop of `build_tree` over the sorted entries of one directory. */
  method AppendLevel(dir: string, l: Listing, entries: seq<Entry>, output: string,
                     depth: nat, maxDepth: nat, prefix: string)
    returns (out: string, r: Result<()>)
    requires Arranged(l, entries)
    ensures r.Ok? <==> Lines(dir, l, entries, |entries|, depth, maxDepth, prefix).Ok?
    ensures r.Ok? ==> out == output + Render(Lines(dir, l, entries, |entries|, depth, maxDepth, prefix).value)
    ensures r.Err? ==> r.error == Lines(dir, l, entries, |entries|, depth, maxDepth, prefix).error
    decreases l, 1
  {
    out := output;
    var count := |entries|;
    var idx := 0;
    ghost var done: seq<TreeLine> := [];
    while idx < count
      invariant idx <= count
      invariant Lines(dir, l, entries, idx, depth, maxDepth, prefix) == Ok(done)
      invariant Emits(out, output, done)
    {
      var next;
      next, r := AppendEntry(dir, l, entries, idx, out, depth, maxDepth, prefix);
      if r.Err? {
        LinesStopAt(dir, l, entries, idx, depth, maxDepth, prefix);
        return next, r;
      }
      ghost var mine := EntryLines(dir, l, entries, idx, depth, maxDepth, prefix).value;
      EmitsMore(out, output, done, next, mine);
      LinesStep(dir, l, entries, idx, depth, maxDepth, prefix);
      out, done := next, done + mine;
      idx := idx + 1;
    }
    return out, Ok(());
  }

  /** The buffer `out` is `output` followed by the rendering of `lines`. */
  predicate Emits(out: string, output: string, lines: seq<TreeLine>)
  {
    out == output + Render(lines)
  }

  /** Appending one line's text puts that line in the buffer. */
  lemma EmitsLine(out: string, output: string, ln: TreeLine)
    requires out == output + LineText(ln)
    ensures Emits(out, output, [ln])
  {
    RenderSingle(ln);
  }

  /** Appending the rendering of more lines extends what the buffer holds. */
  lemma EmitsMore(out: string, output: string, done: seq<TreeLine>, next: string, mine: seq<TreeLine>)
    requires Emits(out, output, done) && next == out + Render(mine)
    ensures Emits(next, output, done + mine)
  {
    RenderAppend(done, mine);
    AppendAssociative(output, Render(done), Render(mine));
  }

  /** One turn of `build_tree`'s loop: the line of sorted entry `idx`, then its subtree. */
  method AppendEntry(dir: string, l: Listing, entries: seq<Entry>, idx: nat, output: string,
                     depth: nat, maxDepth: nat, prefix: string)
    returns (out: string, r: Result<()>)
    requires Arranged(l, entries) && idx < |entries|
    ensures r.Ok? <==> EntryLines(dir, l, entries, idx, depth, maxDepth, prefix).Ok?
    ensures r.Ok? ==> out == output + Render(EntryLines(dir, l, entries, idx, depth, maxDepth, prefix).value)
    ensures r.Err? ==> r.error == EntryLines(dir, l, entries, idx, depth, maxDepth, prefix).error
    decreases l, 0
  {
    out, r := output, Ok(());
    var entry := entries[idx];
    if entry.BadEntry? {
      return;
    }
    var isLast := idx == |entries| - 1;
    var connector, extension, fileType := Connector(isLast), Extension(isLast), Marker(entry.kind);
    ghost var head := HeadLine(entries, prefix, idx);
    out := out + (prefix + connector + fileType + entry.name + "\n");
    EmitsLine(out, output, head);
    if entry.kind.Directory? {
      assert entry in multiset(entries);
      assert entry in l.entries;
      var sub;
      sub, r := BuildTree(Join(dir, entry.name), entry.kind.listing, out, depth + 1, maxDepth, prefix + extension);
      if r.Err? {
        return sub, r;
      }
      ghost var lines := Level(Join(dir, entry.name), entry.kind.listing, depth + 1, maxDepth, prefix + extension).value;
      assert EntryLines(dir, l, entries, idx, depth, maxDepth, prefix) == Ok([head] + lines);
      EmitsMore(out, output, [head], sub, lines);
      out := sub;
    } else {
      assert EntryLines(dir, l, entries, idx, depth, maxDepth, prefix) == Ok([head]);
    }
  }
}
