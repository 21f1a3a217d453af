/**
 * The filesystem the exported operations run against, as one directory
 * tree: a path string is resolved component by component from the root
 * directory, and a removal takes the named entry out of its parent's
 * listing, so every directory's listing, at every depth, stays in step with
 * what the paths below it resolve to.
 */
module FsHost {
  import opened Wrappers
  import opened Text
  import opened Paths
  import opened FsTree

  /** A name an entry can carry: non-empty, without `/`, and not `.`. */
  predicate ValidName(n: string)
  {
    n != "" && n != "." && '/' !in n
  }

  /** A piece between two separators contributes nothing when empty or `.`. */
  function Piece(s: string): seq<string>
  {
    if s == "" || s == "." then [] else [s]
  }

  /**
   * The names a path walks through from the root: the pieces between `/`
   * separators, leaving out empty pieces (repeated or trailing `/`) and `.`.
   */
  function Components(p: string): (r: seq<string>)
    ensures forall k :: 0 <= k < |r| ==> ValidName(r[k])
  {
    Gather(p, "")
  }

  /** The components of `p`, where the piece read so far is `cur`. */
  function Gather(p: string, cur: string): (r: seq<string>)
    requires '/' !in cur
    ensures forall k :: 0 <= k < |r| ==> ValidName(r[k])
  {
    if p == [] then Piece(cur)
    else if p[0] == '/' then Piece(cur) + Gather(p[1..], "")
    else
      assert forall k :: 0 <= k < |cur| ==> cur[k] in cur;
      Gather(p[1..], cur + [p[0]])
  }

  /** A separator splits the components between the two sides. */
  lemma ComponentsSplit(a: string, b: string)
    ensures Components(a + "/" + b) == Components(a) + Components(b)
  {
    GatherSplit(a, b, "");
  }

  lemma {:induction false} GatherSplit(a: string, b: string, cur: string)
    requires '/' !in cur
    ensures Gather(a + "/" + b, cur) == Gather(a, cur) + Gather(b, "")
  {
    var s := a + "/" + b;
    if a == [] {
      assert s == "/" + b && s[1..] == b;
    } else {
      assert s[0] == a[0] && s[1..] == a[1..] + "/" + b;
      if a[0] == '/' {
        GatherSplit(a[1..], b, "");
      } else {
        assert forall k :: 0 <= k < |cur| ==> cur[k] in cur;
        GatherSplit(a[1..], b, cur + [a[0]]);
      }
    }
  }

  /** A valid name is a path of that one component. */
  lemma ComponentsOfName(n: string)
    requires ValidName(n)
    ensures Components(n) == [n]
  {
    GatherWord(n, "");
    assert "" + n == n;
  }

  lemma {:induction false} GatherWord(p: string, cur: string)
    requires '/' !in p && '/' !in cur
    ensures Gather(p, cur) == Piece(cur + p)
  {
    if p != [] {
      assert p[0] in p;
      assert forall k :: 1 <= k < |p| ==> p[k] == p[1..][k - 1] && p[k] in p;
      assert forall k :: 0 <= k < |cur| ==> cur[k] in cur;
      GatherWord(p[1..], cur + [p[0]]);
      assert cur + [p[0]] + p[1..] == cur + p;
    } else {
      assert cur + p == cur;
    }
  }

  /** Joining a name onto a directory path adds exactly that name to its components. */
  lemma ComponentsOfJoin(d: string, n: string)
    requires ValidName(n)
    ensures Components(Join(d, n)) == Components(d) + [n]
  {
    assert !IsAbsolute(n);
    ComponentsOfName(n);
    if d == [] {
      assert Join(d, n) == n;
    } else if d[|d| - 1] == '/' {
      var d' := d[..|d| - 1];
      assert d == d' + "/" + "";
      ComponentsSplit(d', "");
      assert Join(d, n) == d' + "/" + n;
      ComponentsSplit(d', n);
    } else {
      ComponentsSplit(d, n);
    }
  }

  /** The kind of the first readable entry called `name`. */
  function Find(entries: seq<Entry>, name: string): (r: Option<Kind>)
    ensures r.None? <==> forall k :: 0 <= k < |entries| ==> !(entries[k].Named? && entries[k].name == name)
    ensures r.Some? ==> Named(name, r.value) in entries
  {
    if entries == [] then None
    else if entries[0].Named? && entries[0].name == name then Some(entries[0].kind)
    else
      assert forall k :: 1 <= k < |entries| ==> entries[k] == entries[1..][k - 1];
      Find(entries[1..], name)
  }

  /** What the path `comps` names below node `k`: nothing once it leaves the tree or runs through a non-directory. */
  function Lookup(k: Kind, comps: seq<string>): Option<Kind>
  {
    if comps == [] then Some(k)
    else match k
      case Directory(Listed(entries)) =>
        (match Find(entries, comps[0])
         case None => None
         case Some(child) => Lookup(child, comps[1..]))
      case _ => None
  }

  /** Walking `a + b` is walking `a`, then `b` from where that ends. */
  lemma {:induction false} LookupAppend(k: Kind, a: seq<string>, b: seq<string>)
    ensures Lookup(k, a + b) == if Lookup(k, a).Some? then Lookup(Lookup(k, a).value, b) else None
  {
    if a != [] && k.Directory? && k.listing.Listed? {
      assert (a + b)[0] == a[0] && (a + b)[1..] == a[1..] + b;
      var child := Find(k.listing.entries, a[0]);
      if child.Some? {
        LookupAppend(child.value, a[1..], b);
      }
    } else if a == [] {
      assert a + b == b;
    } else {
      assert (a + b) != [];
    }
  }

  /** The entries without any readable entry called `name`, in their order. */
  function Without(entries: seq<Entry>, name: string): (r: seq<Entry>)
    ensures forall e :: e in r <==> e in entries && !(e.Named? && e.name == name)
    ensures Find(r, name) == None
  {
    if entries == [] then []
    else
      assert entries == [entries[0]] + entries[1..];
      var rest := Without(entries[1..], name);
      if entries[0].Named? && entries[0].name == name then rest else [entries[0]] + rest
  }

  /** Removing one name leaves every other name's first entry where it was. */
  lemma {:induction false} FindWithout(entries: seq<Entry>, name: string, n: string)
    requires n != name
    ensures Find(Without(entries, name), n) == Find(entries, n)
  {
    if entries != [] {
      FindWithout(entries[1..], name, n);
      var rest := Without(entries[1..], name);
      if !(entries[0].Named? && entries[0].name == name) {
        assert ([entries[0]] + rest)[1..] == rest;
      }
    }
  }

  /** The directory listing `l` once the node at `comps` below it is removed. */
  function RemoveAt(l: Listing, comps: seq<string>): Listing
    requires comps != []
    decreases |comps|, 2
  {
    match l
    case ReadError(_) => l
    case Listed(entries) =>
      if |comps| == 1 then Listed(Without(entries, comps[0]))
      else Listed(Descend(entries, comps))
  }

  /** The entries with the removal carried into the directories called `comps[0]`. */
  function Descend(entries: seq<Entry>, comps: seq<string>): seq<Entry>
    requires |comps| > 1
    decreases |comps|, 1, |entries|
  {
    if entries == [] then []
    else
      var e := entries[0];
      var e' := if e.Named? && e.name == comps[0] then Named(e.name, Pruned(e.kind, comps[1..])) else e;
      [e'] + Descend(entries[1..], comps)
  }

  /** A node once the path `rest` below it is removed; only a directory has anything below it. */
  function Pruned(k: Kind, rest: seq<string>): Kind
    requires rest != []
    decreases |rest| + 1, 0
  {
    if k.Directory? then Directory(RemoveAt(k.listing, rest)) else k
  }

  lemma {:induction false} FindDescend(entries: seq<Entry>, comps: seq<string>, n: string)
    requires |comps| > 1
    ensures Find(Descend(entries, comps), n)
      == if n == comps[0] && Find(entries, n).Some? then Some(Pruned(Find(entries, n).value, comps[1..]))
         else Find(entries, n)
  {
    if entries != [] {
      FindDescend(entries[1..], comps, n);
      var d := Descend(entries, comps);
      assert d[1..] == Descend(entries[1..], comps);
    }
  }

  /** After the removal, the removed path names nothing. */
  lemma {:induction false} RemovedIsGone(l: Listing, comps: seq<string>)
    requires comps != []
    ensures Lookup(Directory(RemoveAt(l, comps)), comps) == None
    decreases |comps|
  {
    if l.Listed? && |comps| > 1 {
      var entries := l.entries;
      FindDescend(entries, comps, comps[0]);
      var found := Find(entries, comps[0]);
      if found.Some? && found.value.Directory? {
        RemovedIsGone(found.value.listing, comps[1..]);
      }
    }
  }

  /** `c` is neither inside the removed path nor on the way to it. */
  predicate Unrelated(c: seq<string>, comps: seq<string>)
  {
    && !(|comps| <= |c| && c[..|comps|] == comps)
    && !(|c| < |comps| && comps[..|c|] == c)
  }

  /** A removal changes nothing that a path outside it and off the way to it names. */
  lemma {:induction false} RemoveKeepsOthers(l: Listing, comps: seq<string>, c: seq<string>)
    requires comps != [] && Unrelated(c, comps)
    ensures Lookup(Directory(RemoveAt(l, comps)), c) == Lookup(Directory(l), c)
    decreases |comps|
  {
    assert comps[..0] == [];
    assert c != [];
    if l.Listed? {
      var entries := l.entries;
      if |comps| == 1 {
        assert c[..1] != comps;
        FindWithout(entries, comps[0], c[0]);
      } else {
        FindDescend(entries, comps, c[0]);
        var found := Find(entries, c[0]);
        if c[0] == comps[0] && found.Some? && found.value.Directory? {
          UnrelatedTail(c, comps);
          RemoveKeepsOthers(found.value.listing, comps[1..], c[1..]);
        }
      }
    }
  }

  lemma UnrelatedTail(c: seq<string>, comps: seq<string>)
    requires c != [] && comps != [] && c[0] == comps[0] && Unrelated(c, comps)
    ensures Unrelated(c[1..], comps[1..])
  {
    if |comps| <= |c| {
      assert c[..|comps|] == [c[0]] + c[1..][..|comps| - 1];
    }
    if |c| < |comps| {
      assert comps[..|c|] == [comps[0]] + comps[1..][..|c| - 1];
    }
  }

  /** The parent of the removed path loses exactly the entries of that name. */
  lemma {:induction false} RemoveEmptiesParent(l: Listing, comps: seq<string>, entries: seq<Entry>)
    requires comps != []
    requires Lookup(Directory(l), comps[..|comps| - 1]) == Some(Directory(Listed(entries)))
    ensures Lookup(Directory(RemoveAt(l, comps)), comps[..|comps| - 1])
      == Some(Directory(Listed(Without(entries, comps[|comps| - 1]))))
    decreases |comps|
  {
    if |comps| > 1 {
      var up, rest := comps[..|comps| - 1], comps[1..];
      assert l.Listed?;
      var top := l.entries;
      var found := Find(top, comps[0]);
      assert up[0] == comps[0] && up[1..] == rest[..|rest| - 1];
      assert found.Some? && Lookup(found.value, up[1..]) == Some(Directory(Listed(entries)));
      assert found.value.Directory?;
      var sub := found.value.listing;
      FindDescend(top, comps, comps[0]);
      assert Find(Descend(top, comps), comps[0]) == Some(Directory(RemoveAt(sub, rest)));
      RemoveEmptiesParent(sub, rest, entries);
      assert Lookup(Directory(RemoveAt(l, comps)), up) == Lookup(Directory(RemoveAt(sub, rest)), up[1..]);
    }
  }
}
