/**
 * The in-memory view of a directory tree that the traversals walk: what
 * `read_dir` yields for a directory, entry by entry, and the name order
 * the tree renderer sorts entries into.
 */
module FsTree {

  /** What `read_dir` on a directory gives: its entries, or the failure to read it. */
  datatype Listing = Listed(entries: seq<Entry>) | ReadError(error: string)

  /** One item of the directory iterator. */
  datatype Entry =
    | Named(name: string, kind: Kind)   // an entry that could be read
    | BadEntry(error: string)           // the iterator failed on this entry

  /** What `file_type()` reports for a readable entry. */
  datatype Kind =
    | File                              // any type that is not a directory
    | Directory(listing: Listing)       // a directory, with what reading it gives
    | UnknownType                       // `file_type()` itself failed

  predicate IsDirectory(e: Entry)
  {
    e.Named? && e.kind.Directory?
  }

  /** Lexicographic order on strings by code point, which is `String`'s `Ord`. */
  predicate StrLe(a: string, b: string)
    decreases |a|
  {
    a == [] || (b != [] && (a[0] < b[0] || (a[0] == b[0] && StrLe(a[1..], b[1..]))))
  }

  lemma {:induction false} StrLeTotal(a: string, b: string)
    ensures StrLe(a, b) || StrLe(b, a)
    decreases |a|
  {
    if a != [] && b != [] && a[0] == b[0] {
      StrLeTotal(a[1..], b[1..]);
    }
  }

  lemma {:induction false} StrLeTransitive(a: string, b: string, c: string)
    requires StrLe(a, b) && StrLe(b, c)
    ensures StrLe(a, c)
    decreases |a|
  {
    if a != [] && a[0] == b[0] && b[0] == c[0] {
      StrLeTransitive(a[1..], b[1..], c[1..]);
    }
  }

  /**
   * The sort key of the tree renderer: an entry that could not be read has
   * no key, and no key orders before every name.
   */
  predicate KeyLe(x: Entry, y: Entry)
  {
    x.BadEntry? || (y.Named? && StrLe(x.name, y.name))
  }

  lemma KeyLeTotal(x: Entry, y: Entry)
    ensures KeyLe(x, y) || KeyLe(y, x)
  {
    if x.Named? && y.Named? {
      StrLeTotal(x.name, y.name);
    }
  }

  lemma KeyLeTransitive(x: Entry, y: Entry, z: Entry)
    requires KeyLe(x, y) && KeyLe(y, z)
    ensures KeyLe(x, z)
  {
    if x.Named? {
      StrLeTransitive(x.name, y.name, z.name);
    }
  }

  predicate SortedByName(s: seq<Entry>)
  {
    forall i, j :: 0 <= i < j < |s| ==> KeyLe(s[i], s[j])
  }

  /** Puts `x` before the first element it does not follow, so equal keys keep their order. */
  function Insert(x: Entry, s: seq<Entry>): (r: seq<Entry>)
    ensures multiset(r) == multiset(s) + multiset{x}
  {
    if s == [] then [x]
    else if KeyLe(x, s[0]) then [x] + s
    else
      assert s == [s[0]] + s[1..];
      [s[0]] + Insert(x, s[1..])
  }

  /** Every element of `Insert(x, s)` is `x` or an element of `s`. */
  lemma InsertFrom(x: Entry, s: seq<Entry>, j: nat)
    requires j < |Insert(x, s)|
    ensures Insert(x, s)[j] == x || exists k :: 0 <= k < |s| && s[k] == Insert(x, s)[j]
  {
    var r := Insert(x, s);
    assert r[j] in multiset(r);
    if r[j] != x {
      assert r[j] in multiset(s);
      assert r[j] in s;
    }
  }

  lemma {:induction false} InsertSorted(x: Entry, s: seq<Entry>)
    requires SortedByName(s)
    ensures SortedByName(Insert(x, s))
  {
    if s == [] {
    } else if KeyLe(x, s[0]) {
      forall j | 0 < j < |s| ensures KeyLe(x, s[j]) {
        KeyLeTransitive(x, s[0], s[j]);
      }
    } else {
      var rest := Insert(x, s[1..]);
      InsertSorted(x, s[1..]);
      KeyLeTotal(x, s[0]);
      forall j | 0 <= j < |rest| ensures KeyLe(s[0], rest[j]) {
        InsertFrom(x, s[1..], j);
        if rest[j] != x {
          var k :| 0 <= k < |s[1..]| && s[1..][k] == rest[j];
          assert s[k + 1] == rest[j];
        }
      }
    }
  }

  /**
   * `sort_by_key` on the collected entries: a stable sort by name with the
   * unreadable entries first. The result is ordered and holds the same
   * entries.
   */
  function SortByName(s: seq<Entry>): (r: seq<Entry>)
    ensures multiset(r) == multiset(s)
    ensures |r| == |s|
    ensures SortedByName(r)
  {
    if s == [] then []
    else
      assert s == [s[0]] + s[1..];
      var r := Insert(s[0], SortByName(s[1..]));
      InsertSorted(s[0], SortByName(s[1..]));
      assert |r| == |multiset(r)|;
      r
  }
}
