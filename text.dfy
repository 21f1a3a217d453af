/**
 * Character-level string helpers shared by the filesystem operations and
 * the registry filter: lower-casing, substring search, prefix tests,
 * ASCII case-insensitive equality and whitespace splitting.
 */
module Text {

  /** Lower-cases one character; only `A`..`Z` change. */
  function LowerChar(c: char): char
  {
    if 'A' <= c <= 'Z' then (c as int + 32) as char else c
  }

  /** Lower-cases a string character by character. */
  function Lower(s: string): (r: string)
    ensures |r| == |s|
    ensures forall i :: 0 <= i < |s| ==> r[i] == LowerChar(s[i])
  {
    seq(|s|, i requires 0 <= i < |s| => LowerChar(s[i]))
  }

  lemma LowerIdempotent(s: string)
    ensures Lower(Lower(s)) == Lower(s)
  {
    assert forall i :: 0 <= i < |s| ==> Lower(Lower(s))[i] == Lower(s)[i];
  }

  lemma LowerAppend(a: string, b: string)
    ensures Lower(a + b) == Lower(a) + Lower(b)
  {
    assert forall i :: 0 <= i < |a + b| ==> Lower(a + b)[i] == (Lower(a) + Lower(b))[i];
  }

  lemma LowerSlice(s: string, i: nat, j: nat)
    requires i <= j <= |s|
    ensures Lower(s[i..j]) == Lower(s)[i..j]
  {
  }

  /** A string without capital ASCII letters is its own lower-case form. */
  lemma LowerKeepsLowerCase(s: string)
    requires forall i :: 0 <= i < |s| ==> !('A' <= s[i] <= 'Z')
    ensures Lower(s) == s
  {
  }

  /** A piece with no capital letter is still found in the lower-cased text around it. */
  lemma LowerKeepsInfix(x: string, m: string, y: string)
    requires forall i :: 0 <= i < |m| ==> !('A' <= m[i] <= 'Z')
    ensures Contains(Lower(x + m + y), m)
  {
    LowerAppend(x + m, y);
    LowerAppend(x, m);
    LowerKeepsLowerCase(m);
    var s := Lower(x + m + y);
    assert s == Lower(x) + m + Lower(y);
    assert s[|x|..|x| + |m|] == m;
    ContainsAt(s, m, |x|);
  }

  /** A lower-case letter occurs in the lower-cased string only where it or its capital did. */
  lemma LowerMissingChar(s: string, c: char)
    requires 'a' <= c <= 'z' && c !in s && (c as int - 32) as char !in s
    ensures c !in Lower(s)
  {
    forall i | 0 <= i < |s| ensures Lower(s)[i] != c {
      assert s[i] in s;
    }
  }

  /** `t` occurs in `s` starting at index `i`. */
  predicate OccursAt(s: string, t: string, i: nat)
  {
    i + |t| <= |s| && s[i..i + |t|] == t
  }

  /** `t` occurs in `s` as a contiguous substring (`str::contains`). */
  predicate Contains(s: string, t: string)
  {
    exists i: nat :: i <= |s| && OccursAt(s, t, i)
  }

  /** Gives the witness of a `Contains` fact. */
  lemma ContainsAt(s: string, t: string, i: nat)
    requires i + |t| <= |s| && s[i..i + |t|] == t
    ensures Contains(s, t)
  {
    assert OccursAt(s, t, i);
  }

  lemma ContainsEmpty(s: string)
    ensures Contains(s, "")
  {
    ContainsAt(s, "", 0);
  }

  /** A string in which some character of `t` never appears does not contain `t`. */
  lemma MissingCharNotContained(s: string, t: string, k: nat)
    requires k < |t| && t[k] !in s
    ensures !Contains(s, t)
  {
    forall i: nat | i <= |s| ensures !OccursAt(s, t, i) {
      if i + |t| <= |s| {
        assert s[i..i + |t|][k] == s[i + k];
      }
    }
  }

  /** `str::starts_with`. */
  predicate StartsWith(s: string, p: string)
  {
    |p| <= |s| && s[..|p|] == p
  }

  /** `str::ends_with`. */
  predicate EndsWith(s: string, p: string)
  {
    |p| <= |s| && s[|s| - |p|..] == p
  }

  /** `str::eq_ignore_ascii_case`: equal after ASCII lower-casing of both sides. */
  predicate EqIgnoreAsciiCase(a: string, b: string)
  {
    |a| == |b| && forall i :: 0 <= i < |a| ==> LowerChar(a[i]) == LowerChar(b[i])
  }

  lemma EqIgnoreAsciiCaseIffLowerEqual(a: string, b: string)
    ensures EqIgnoreAsciiCase(a, b) <==> Lower(a) == Lower(b)
  {
    if Lower(a) == Lower(b) {
      assert forall i :: 0 <= i < |a| ==> LowerChar(a[i]) == Lower(b)[i];
    }
    if EqIgnoreAsciiCase(a, b) {
      assert forall i :: 0 <= i < |a| ==> Lower(a)[i] == Lower(b)[i];
    }
  }

  /** The Unicode White_Space property, as `char::is_whitespace` uses it. */
  predicate IsWhitespace(c: char)
  {
    c == ' ' || c == '\t' || c == '\n' || c == '\U{0B}' || c == '\U{0C}' || c == '\r'
    || c == '\U{85}' || c == '\U{A0}' || c == '\U{1680}'
    || ('\U{2000}' <= c <= '\U{200A}')
    || c == '\U{2028}' || c == '\U{2029}' || c == '\U{202F}' || c == '\U{205F}' || c == '\U{3000}'
  }

  lemma LowerCharKeepsWhitespace(c: char)
    ensures IsWhitespace(LowerChar(c)) <==> IsWhitespace(c)
  {
  }

  /** Number of leading characters of `s` that are not whitespace. */
  function WordLength(s: string): (n: nat)
    ensures n <= |s|
    ensures forall i :: 0 <= i < n ==> !IsWhitespace(s[i])
    ensures n < |s| ==> IsWhitespace(s[n])
  {
    if s == [] || IsWhitespace(s[0]) then 0 else 1 + WordLength(s[1..])
  }

  /** `str::split_whitespace`: the maximal runs of non-whitespace characters, in order. */
  function Words(s: string): seq<string>
    decreases |s|
  {
    if s == [] then []
    else if IsWhitespace(s[0]) then Words(s[1..])
    else
      var n := WordLength(s);
      [s[..n]] + Words(s[n..])
  }

  /** Every word is non-empty and holds no whitespace. */
  lemma {:induction false} WordsAreWords(s: string)
    ensures forall w :: w in Words(s) ==> |w| > 0 && forall i :: 0 <= i < |w| ==> !IsWhitespace(w[i])
    decreases |s|
  {
    if s == [] {
    } else if IsWhitespace(s[0]) {
      WordsAreWords(s[1..]);
    } else {
      WordsAreWords(s[WordLength(s)..]);
    }
  }

  /** A string splits into no words exactly when it is all whitespace. */
  lemma {:induction false} WordsEmptyIff(s: string)
    ensures Words(s) == [] <==> forall i :: 0 <= i < |s| ==> IsWhitespace(s[i])
    decreases |s|
  {
    if s == [] {
    } else if IsWhitespace(s[0]) {
      WordsEmptyIff(s[1..]);
      assert forall i :: 1 <= i < |s| ==> s[i] == s[1..][i - 1];
    } else {
      assert Words(s) != [];
    }
  }

  lemma {:induction false} WordLengthLower(s: string)
    ensures WordLength(Lower(s)) == WordLength(s)
    decreases |s|
  {
    if s != [] {
      LowerCharKeepsWhitespace(s[0]);
      assert Lower(s)[1..] == Lower(s[1..]);
      WordLengthLower(s[1..]);
    }
  }

  /** Lower-casing a string lower-cases each of its words and keeps the split. */
  lemma {:induction false} WordsLower(s: string)
    ensures |Words(Lower(s))| == |Words(s)|
    ensures forall k :: 0 <= k < |Words(s)| ==> Words(Lower(s))[k] == Lower(Words(s)[k])
    decreases |s|
  {
    if s == [] {
    } else if IsWhitespace(s[0]) {
      LowerCharKeepsWhitespace(s[0]);
      assert Lower(s)[1..] == Lower(s[1..]);
      WordsLower(s[1..]);
    } else {
      LowerCharKeepsWhitespace(s[0]);
      var n := WordLength(s);
      WordLengthLower(s);
      assert Lower(s)[..n] == Lower(s[..n]);
      assert Lower(s)[n..] == Lower(s[n..]);
      WordsLower(s[n..]);
      var a, b := Words(s[n..]), Words(Lower(s[n..]));
      assert Words(s) == [s[..n]] + a;
      assert Words(Lower(s)) == [Lower(s[..n])] + b;
      LowerEach(s[..n], a, b);
    }
  }

  /** One more word in front keeps two word lists lower-cased pairwise. */
  lemma LowerEach(w: string, a: seq<string>, b: seq<string>)
    requires |b| == |a| && forall k :: 0 <= k < |a| ==> b[k] == Lower(a[k])
    ensures var x, y := [w] + a, [Lower(w)] + b;
      |y| == |x| && forall k :: 0 <= k < |x| ==> y[k] == Lower(x[k])
  {
    var x, y := [w] + a, [Lower(w)] + b;
    forall k | 0 < k < |x| ensures y[k] == Lower(x[k]) {
      assert x[k] == a[k - 1] && y[k] == b[k - 1];
    }
  }

  /** `[String]::join("\n")`: the lines with one newline between neighbours. */
  function JoinLines(lines: seq<string>): string
  {
    if lines == [] then ""
    else if |lines| == 1 then lines[0]
    else lines[0] + "\n" + JoinLines(lines[1..])
  }

  /** The position of the first `c` in `s`. */
  function IndexOf(s: string, c: char): (i: nat)
    requires c in s
    ensures i < |s| && s[i] == c
    ensures forall j :: 0 <= j < i ==> s[j] != c
  {
    if s[0] == c then 0
    else
      assert s == [s[0]] + s[1..];
      1 + IndexOf(s[1..], c)
  }

  /** `str::split('\n')`: the pieces between newlines, an empty string giving one empty piece. */
  function SplitLines(s: string): (r: seq<string>)
    ensures |r| > 0
    decreases |s|
  {
    if '\n' !in s then [s]
    else
      var i := IndexOf(s, '\n');
      [s[..i]] + SplitLines(s[i + 1..])
  }

  /** Splitting the joined lines at newlines gives the lines back when none holds a newline. */
  lemma {:induction false} SplitJoin(lines: seq<string>)
    requires lines != []
    requires forall k :: 0 <= k < |lines| ==> '\n' !in lines[k]
    ensures SplitLines(JoinLines(lines)) == lines
  {
    if |lines| > 1 {
      SplitAtFirst(lines[0], JoinLines(lines[1..]));
      SplitJoin(lines[1..]);
      assert lines == [lines[0]] + lines[1..];
    }
  }

  /** The first piece is everything before the first newline. */
  lemma SplitAtFirst(head: string, rest: string)
    requires '\n' !in head
    ensures SplitLines(head + "\n" + rest) == [head] + SplitLines(rest)
  {
    var s := head + "\n" + rest;
    assert s[|head|] == '\n';
    assert forall j :: 0 <= j < |head| ==> s[j] == head[j] && head[j] in head;
    var i := IndexOf(s, '\n');
    assert i == |head|;
    assert s[..i] == head;
    assert s[i + 1..] == rest;
  }
}
