/**
 * Path resolution: the home-directory expansion every filesystem operation
 * applies to its path arguments before touching the filesystem, and the
 * Unix `Path::join` it uses.
 */
module Paths {
  import opened Wrappers
  import opened Text

  /** The message of the resolution failure (HOME unset or not Unicode). */
  const HomeError := "Cannot determine home directory from $HOME"

  /** A Unix path is absolute when it starts at the root. */
  predicate IsAbsolute(p: string)
  {
    |p| > 0 && p[0] == '/'
  }

  /**
   * `Path::new(base).join(rel)` on Unix: an absolute `rel` replaces `base`;
   * otherwise a separator is inserted unless `base` is empty or already ends
   * in one.
   */
  function Join(base: string, rel: string): (r: string)
    ensures IsAbsolute(rel) ==> r == rel
    ensures !IsAbsolute(rel) ==> StartsWith(r, base) && EndsWith(r, rel)
    ensures !IsAbsolute(rel) ==> |r| - |base| - |rel| == (if base == [] || base[|base| - 1] == '/' then 0 else 1)
    ensures !IsAbsolute(rel) && base != [] && base[|base| - 1] != '/' ==> r[|base|] == '/'
  {
    if IsAbsolute(rel) then rel
    else if base == [] || base[|base| - 1] == '/' then base + rel
    else base + "/" + rel
  }

  /** The text after the last `/` of a path (the whole path when it has none). */
  function LastComponent(p: string): (r: string)
    ensures EndsWith(p, r) && '/' !in r
    ensures |r| < |p| ==> p[|p| - |r| - 1] == '/'
  {
    if p == [] || p[|p| - 1] == '/' then []
    else
      var q, c := p[..|p| - 1], p[|p| - 1];
      var r := LastComponent(q) + [c];
      assert p == q + [c];
      assert p[|p| - |r|..] == q[|q| - |r| + 1..] + [c];
      r
  }

  /** Whether `get_path` has to consult HOME for this input. */
  predicate NeedsExpansion(path: string)
  {
    path == "~" || StartsWith(path, "~/")
  }

  /** A relative path joined onto a path that `get_path` leaves alone is left alone too. */
  lemma JoinKeepsUnexpanded(dir: string, rel: string)
    requires dir != "" && !NeedsExpansion(dir) && rel != "" && !IsAbsolute(rel)
    ensures !NeedsExpansion(Join(dir, rel))
  {
    var j := Join(dir, rel);
    assert |j| >= 2 && j[..|dir|] == dir;
    assert j[0] == dir[0];
    if dir[0] == '~' {
      assert |dir| >= 2 && dir[1] != '/';
      assert j[1] == dir[1];
    }
    assert j != "~" && j[..2] != "~/";
  }

  /**
   * `get_path`: exactly `~` becomes HOME, `~/rest` becomes HOME joined with
   * `rest`, and every other string is returned as it is. It fails only when
   * the input needs expansion and HOME is unavailable.
   */
  function GetPath(path: string, home: Option<string>): (r: Result<string>)
    ensures r.Err? <==> NeedsExpansion(path) && home.None?
    ensures r.Err? ==> r.error == HomeError
    ensures !NeedsExpansion(path) ==> r == Ok(path)
    ensures path == "~" && home.Some? ==> r == Ok(home.value)
  {
    if NeedsExpansion(path) then
      match home
      case None => Err(HomeError)
      case Some(h) => if path == "~" then Ok(h) else Ok(Join(h, path[2..]))
    else Ok(path)
  }

  /** A tilde that is not followed by `/` (such as `~foo`) is not expanded, even without HOME. */
  lemma TildeNameIsKept(name: string)
    requires name != [] && name[0] != '/'
    ensures GetPath("~" + name, None) == Ok("~" + name)
  {
    assert ("~" + name)[..2] != "~/" by {
      assert ("~" + name)[1] == name[0];
    }
  }

  /**
   * `~/rest` with a relative `rest` resolves to HOME, then a `/` unless HOME
   * is empty or already ends in one, then `rest`.
   */
  lemma HomeRelative(h: string, rest: string)
    requires !IsAbsolute(rest)
    ensures GetPath("~/" + rest, Some(h)).Ok?
    ensures var r := GetPath("~/" + rest, Some(h)).value;
      StartsWith(r, h) && EndsWith(r, rest)
      && (h != [] && h[|h| - 1] != '/' ==> r == h + "/" + rest)
      && (h == [] || h[|h| - 1] == '/' ==> r == h + rest)
  {
    var p := "~/" + rest;
    assert StartsWith(p, "~/") by { assert p[..2] == "~/"; }
    assert p != "~";
    assert p[2..] == rest;
  }

  /** `~/` followed by an absolute path escapes HOME: the join keeps only the absolute part. */
  lemma AbsoluteRestReplacesHome(h: string, rest: string)
    requires IsAbsolute(rest)
    ensures GetPath("~/" + rest, Some(h)) == Ok(rest)
  {
    var p := "~/" + rest;
    assert p[..2] == "~/";
    assert p[2..] == rest;
  }

  /** A name without `/` after a separator (or at the start) is the last component. */
  lemma {:induction false} LastComponentAfterSeparator(q: string, n: string)
    requires q == [] || q[|q| - 1] == '/'
    requires '/' !in n
    ensures LastComponent(q + n) == n
    decreases |n|
  {
    if n == [] {
      assert q + n == q;
    } else {
      var m := n[..|n| - 1];
      assert (q + n)[..|q + n| - 1] == q + m;
      LastComponentAfterSeparator(q, m);
      assert m + [n[|n| - 1]] == n;
    }
  }

  /** The last component of `dir` joined with an entry name is that name again. */
  lemma LastComponentOfJoin(dir: string, name: string)
    requires name != [] && '/' !in name
    ensures LastComponent(Join(dir, name)) == name
  {
    if dir == [] || dir[|dir| - 1] == '/' {
      LastComponentAfterSeparator(dir, name);
    } else {
      assert Join(dir, name) == (dir + "/") + name;
      LastComponentAfterSeparator(dir + "/", name);
    }
  }
}
