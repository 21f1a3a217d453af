/**
 * The component registry's lookups: a case-insensitive, any-term substring
 * search over name, description and URI, and the lookup of one component
 * by name (ignoring ASCII case) or by exact URI.
 */
module Registry {
  import opened Wrappers
  import opened Text

  /** One entry of the registry. */
  datatype Component = Component(name: string, description: string, uri: string)

  /**
   * The query split at whitespace, each word lower-cased: one term per
   * word, equal to it up to ASCII case, non-empty, free of whitespace and
   * already in lower case.
   */
  function QueryTerms(query: string): (terms: seq<string>)
    ensures |terms| == |Words(query)|
    ensures forall k :: 0 <= k < |terms| ==> EqIgnoreAsciiCase(terms[k], Words(query)[k])
    ensures forall k :: 0 <= k < |terms| ==> IsTerm(terms[k])
  {
    var words := Words(query);
    var terms := seq(|words|, k requires 0 <= k < |words| => Lower(words[k]));
    assert forall k :: 0 <= k < |terms| ==> EqIgnoreAsciiCase(terms[k], words[k]) && IsTerm(terms[k]) by {
      WordsAreWords(query);
      forall k | 0 <= k < |terms|
        ensures EqIgnoreAsciiCase(terms[k], words[k]) && IsTerm(terms[k])
      {
        assert words[k] in words;
        LowerWordIsTerm(words[k]);
      }
    }
    terms
  }

  /** A search term: non-empty, without whitespace, and unchanged by lower-casing. */
  predicate IsTerm(t: string)
  {
    t != "" && Lower(t) == t && forall i :: 0 <= i < |t| ==> !IsWhitespace(t[i])
  }

  /** Lower-casing a word gives a term equal to it up to ASCII case. */
  lemma LowerWordIsTerm(w: string)
    requires w != "" && forall i :: 0 <= i < |w| ==> !IsWhitespace(w[i])
    ensures IsTerm(Lower(w)) && EqIgnoreAsciiCase(Lower(w), w)
  {
    LowerIdempotent(w);
    EqIgnoreAsciiCaseIffLowerEqual(Lower(w), w);
    forall i | 0 <= i < |w| ensures !IsWhitespace(Lower(w)[i]) {
      LowerCharKeepsWhitespace(w[i]);
    }
  }

  /** One term occurs in the lower-cased name, description or URI. */
  predicate MatchesTerm(c: Component, term: string)
  {
    Contains(Lower(c.name), term) || Contains(Lower(c.description), term) || Contains(Lower(c.uri), term)
  }

  /** At least one of the terms occurs in the component. */
  predicate Selected(c: Component, terms: seq<string>)
  {
    exists k :: 0 <= k < |terms| && MatchesTerm(c, terms[k])
  }

  /** `a` is `b` with some elements left out, the rest kept in order. */
  predicate Subsequence(a: seq<Component>, b: seq<Component>)
    decreases |b|
  {
    a == [] || (b != [] && ((a[0] == b[0] && Subsequence(a[1..], b[1..])) || Subsequence(a, b[1..])))
  }

  lemma {:induction false} SubsequenceReflexive(s: seq<Component>)
    ensures Subsequence(s, s)
    decreases |s|
  {
    if s != [] {
      SubsequenceReflexive(s[1..]);
    }
  }

  /** A subsequence is never longer than the sequence it comes from and holds only its elements. */
  lemma {:induction false} SubsequenceBounds(a: seq<Component>, b: seq<Component>)
    requires Subsequence(a, b)
    ensures |a| <= |b|
    ensures forall x :: x in a ==> x in b
    decreases |b|
  {
    if a != [] {
      if a[0] == b[0] && Subsequence(a[1..], b[1..]) {
        SubsequenceBounds(a[1..], b[1..]);
        assert a == [a[0]] + a[1..];
      } else {
        SubsequenceBounds(a, b[1..]);
      }
    }
  }

  /** The components selected by the terms, in registry order. */
  function Keep(cs: seq<Component>, terms: seq<string>): (r: seq<Component>)
    ensures Subsequence(r, cs)
    ensures forall c :: c in r <==> c in cs && Selected(c, terms)
    ensures forall c :: multiset(r)[c] == if Selected(c, terms) then multiset(cs)[c] else 0
  {
    if cs == [] then []
    else
      var rest := Keep(cs[1..], terms);
      assert cs == [cs[0]] + cs[1..];
      assert multiset(cs) == multiset{cs[0]} + multiset(cs[1..]);
      assert forall c :: c in cs <==> c == cs[0] || c in cs[1..];
      if Selected(cs[0], terms) then
        assert ([cs[0]] + rest)[1..] == rest;
        [cs[0]] + rest
      else rest
  }

  /**
   * `search_components`: everything when there is no query or the query
   * has no words; otherwise the components matching any of its terms.
   */
  function SearchComponents(cs: seq<Component>, query: Option<string>): (r: seq<Component>)
    ensures query.None? ==> r == cs
    ensures query.Some? && QueryTerms(query.value) == [] ==> r == cs
    ensures Subsequence(r, cs) && |r| <= |cs|
    ensures query.Some? && QueryTerms(query.value) != [] ==>
      forall c :: c in r <==> c in cs && Selected(c, QueryTerms(query.value))
    ensures query.Some? && QueryTerms(query.value) != [] ==>
      forall c :: multiset(r)[c] == if Selected(c, QueryTerms(query.value)) then multiset(cs)[c] else 0
  {
    var r :=
      match query
      case None => cs
      case Some(q) =>
        var terms := QueryTerms(q);
        if terms == [] then cs else Keep(cs, terms);
    SubsequenceReflexive(cs);
    SubsequenceBounds(r, cs);
    r
  }

  /** The terms are the words of the lower-cased query. */
  lemma QueryTermsAreLowerWords(query: string)
    ensures QueryTerms(query) == Words(Lower(query))
  {
    WordsLower(query);
  }

  /** The search does not depend on the case of the query. */
  lemma SearchIgnoresQueryCase(cs: seq<Component>, p: string, q: string)
    requires Lower(p) == Lower(q)
    ensures SearchComponents(cs, Some(p)) == SearchComponents(cs, Some(q))
  {
    QueryTermsAreLowerWords(p);
    QueryTermsAreLowerWords(q);
  }

  /** A query made only of whitespace (or empty) returns the whole registry. */
  lemma BlankQueryReturnsAll(cs: seq<Component>, query: string)
    requires forall i :: 0 <= i < |query| ==> IsWhitespace(query[i])
    ensures SearchComponents(cs, Some(query)) == cs
  {
    WordsEmptyIff(query);
  }

  /** Adding a term never removes a component from a non-blank search: terms combine with OR. */
  lemma MoreTermsSelectMore(c: Component, terms: seq<string>, extra: seq<string>)
    requires Selected(c, terms)
    ensures Selected(c, terms + extra)
  {
    var k :| 0 <= k < |terms| && MatchesTerm(c, terms[k]);
    assert (terms + extra)[k] == terms[k];
  }

  /** `name_or_uri` names `c`: the name up to ASCII case, or the URI exactly. */
  predicate Identifies(c: Component, nameOrUri: string)
  {
    EqIgnoreAsciiCase(c.name, nameOrUri) || c.uri == nameOrUri
  }

  /** `find_component_by_name_or_uri`. */
  function FindComponent(cs: seq<Component>, nameOrUri: string): (r: Option<Component>)
    ensures r.None? <==> forall i :: 0 <= i < |cs| ==> !Identifies(cs[i], nameOrUri)
    ensures r.Some? ==> r.value in cs && Identifies(r.value, nameOrUri)
  {
    if cs == [] then None
    else if Identifies(cs[0], nameOrUri) then Some(cs[0])
    else
      var r := FindComponent(cs[1..], nameOrUri);
      assert forall i :: 1 <= i < |cs| ==> cs[i] == cs[1..][i - 1];
      r
  }

  /** The component found is the first one, in registry order, that the identifier names. */
  lemma {:induction false} FindIsFirst(cs: seq<Component>, nameOrUri: string, i: nat)
    requires i < |cs| && Identifies(cs[i], nameOrUri)
    requires forall j :: 0 <= j < i ==> !Identifies(cs[j], nameOrUri)
    ensures FindComponent(cs, nameOrUri) == Some(cs[i])
  {
    if i > 0 {
      FindIsFirst(cs[1..], nameOrUri, i - 1);
    }
  }

  // ----- the registry's own examples -----

  const Weather := Component("Weather Server", "A weather component", "oci://example.com/weather")
  const Time := Component("Time Server", "A time component", "oci://example.com/time")

  /** Words of one word. */
  lemma WordsOfWord(w: string)
    requires w != [] && forall i :: 0 <= i < |w| ==> !IsWhitespace(w[i])
    ensures Words(w) == [w]
  {
    assert WordLength(w) == |w|;
    assert w[..|w|] == w;
  }

  /** Words of two words separated by a space. */
  lemma WordsOfPair(a: string, b: string)
    requires a != [] && forall i :: 0 <= i < |a| ==> !IsWhitespace(a[i])
    requires b != [] && forall i :: 0 <= i < |b| ==> !IsWhitespace(b[i])
    ensures Words(a + " " + b) == [a, b]
  {
    var s := a + " " + b;
    assert WordLength(s) == |a| by {
      assert forall i :: 0 <= i < |a| ==> s[i] == a[i];
      assert IsWhitespace(s[|a|]);
    }
    assert s[..|a|] == a;
    assert s[|a|..][1..] == b;
    WordsOfWord(b);
  }

  /** A word of lower-case ASCII letters. */
  predicate LowerLetters(w: string)
  {
    w != [] && forall i :: 0 <= i < |w| ==> 'a' <= w[i] <= 'z'
  }

  /** A query that is one lower-case word is its own single term. */
  lemma OneWordTerms(w: string)
    requires LowerLetters(w)
    ensures QueryTerms(w) == [w]
  {
    WordsOfWord(w);
    LowerKeepsLowerCase(w);
  }

  /** Two lower-case words with a space between are the two terms. */
  lemma TwoWordTerms(a: string, b: string)
    requires LowerLetters(a) && LowerLetters(b)
    ensures QueryTerms(a + " " + b) == [a, b]
  {
    WordsOfPair(a, b);
    LowerKeepsLowerCase(a);
    LowerKeepsLowerCase(b);
  }

  lemma WeatherTerms()
    ensures QueryTerms("weather") == ["weather"]
  {
    OneWordTerms("weather");
  }

  lemma WeatherMatches()
    ensures MatchesTerm(Weather, "weather")
  {
    ContainsAt(Lower(Weather.name), "weather", 0);
  }

  /** No field of the time server holds a `w` in either case. */
  lemma TimeMisses(c: Component)
    requires c == Time
    ensures !MatchesTerm(c, "weather")
  {
    NoW(c.name, "Time Server");
    NoW(c.description, "A time component");
    NoW(c.uri, "oci://example.com/time");
    LacksWeather(c.name);
    LacksWeather(c.description);
    LacksWeather(c.uri);
  }

  lemma NoW(s: string, t: string)
    requires s == t
    requires t == "Time Server" || t == "A time component" || t == "oci://example.com/time"
    ensures 'w' !in s && 'W' !in s
  {
  }

  /** A text with no `w` and no `W` cannot contain "weather" in any case. */
  lemma LacksWeather(s: string)
    requires 'w' !in s && 'W' !in s
    ensures !Contains(Lower(s), "weather")
  {
    LowerMissingChar(s, 'w');
    MissingCharNotContained(Lower(s), "weather", 0);
  }

  /** `weather` picks the weather server out of the two. */
  lemma WeatherExample(cs: seq<Component>)
    requires cs == [Weather, Time]
    ensures SearchComponents(cs, Some("weather")) == [Weather]
  {
    WeatherTerms();
    WeatherMatches();
    TimeMisses(Time);
    OneTermPicks(Weather, Time, "weather", "weather");
  }

  /** A one-term query over two components keeps the one that holds the term and drops the other. */
  lemma OneTermPicks(a: Component, b: Component, query: string, term: string)
    requires QueryTerms(query) == [term]
    requires MatchesTerm(a, term) && !MatchesTerm(b, term)
    ensures SearchComponents([a, b], Some(query)) == [a]
  {
    var cs, terms := [a, b], [term];
    assert Selected(a, terms) by {
      assert MatchesTerm(a, terms[0]);
    }
    assert cs[1..] == [b];
    assert Keep([b], terms) == [];
  }

  /** `WEATHER` finds the same component: the query's case does not matter. */
  lemma UpperCaseExample(cs: seq<Component>)
    requires cs == [Weather, Time]
    ensures SearchComponents(cs, Some("WEATHER")) == [Weather]
  {
    assert Lower("WEATHER") == Lower("weather");
    SearchIgnoresQueryCase(cs, "WEATHER", "weather");
    WeatherExample(cs);
  }

  /** A query of blanks returns everything. */
  lemma BlankExample(cs: seq<Component>)
    requires cs == [Weather, Time]
    ensures SearchComponents(cs, Some("   ")) == cs
  {
    BlankQueryReturnsAll(cs, "   ");
  }

  lemma MultiTermTerms(q: string)
    requires q == "weather rust"
    ensures QueryTerms(q) == ["weather", "rust"]
  {
    assert q == "weather" + " " + "rust";
    TwoWordTerms("weather", "rust");
  }

  lemma MultiTermFacts(js: Component, rs: Component)
    requires js == Component("Weather Server", "JavaScript weather component", "oci://example.com/weather-js")
    requires rs == Component("Time Server", "Rust time component", "oci://example.com/time-rs")
    ensures MatchesTerm(js, "weather") && MatchesTerm(rs, "rust")
  {
    assert js.description == "JavaScript " + "weather" + " component";
    LowerKeepsInfix("JavaScript ", "weather", " component");
    RustLeads(rs.description);
  }

  lemma RustLeads(d: string)
    requires d == "Rust time component"
    ensures Contains(Lower(d), "rust")
  {
    assert d == "Rust" + " time component";
    LowerAppend("Rust", " time component");
    assert Lower("Rust") == "rust";
    ContainsAt(Lower(d), "rust", 0);
  }

  /** Terms combine with OR: `weather rust` matches one component by each term. */
  lemma MultiTermExample(js: Component, rs: Component, q: string)
    requires js == Component("Weather Server", "JavaScript weather component", "oci://example.com/weather-js")
    requires rs == Component("Time Server", "Rust time component", "oci://example.com/time-rs")
    requires q == "weather rust"
    ensures SearchComponents([js, rs], Some(q)) == [js, rs]
  {
    MultiTermTerms(q);
    MultiTermFacts(js, rs);
    var terms := ["weather", "rust"];
    assert Selected(js, terms) by {
      assert MatchesTerm(js, terms[0]);
    }
    assert Selected(rs, terms) by {
      assert MatchesTerm(rs, terms[1]);
    }
    assert Keep([rs], terms) == [rs];
    assert [js, rs][1..] == [rs];
  }

  lemma MicrosoftTerms()
    ensures QueryTerms("microsoft") == ["microsoft"]
  {
    OneWordTerms("microsoft");
  }

  lemma UriFacts(c: Component)
    requires c == Component("Component", "A test component", "oci://ghcr.io/microsoft/weather")
    ensures MatchesTerm(c, "microsoft")
  {
    assert c.uri == "oci://ghcr.io/" + "microsoft" + "/weather";
    LowerKeepsInfix("oci://ghcr.io/", "microsoft", "/weather");
  }

  /** The URI alone can make a component match. */
  lemma UriExample(c: Component)
    requires c == Component("Component", "A test component", "oci://ghcr.io/microsoft/weather")
    ensures SearchComponents([c], Some("microsoft")) == [c]
  {
    MicrosoftTerms();
    UriFacts(c);
    var terms := ["microsoft"];
    assert Selected(c, terms) by {
      assert MatchesTerm(c, terms[0]);
    }
  }

  /** Lookups by exact name, by name in another case, and by URI; the URI is compared with case. */
  lemma FindExamples()
    ensures FindComponent([Weather], "Weather Server") == Some(Weather)
    ensures FindComponent([Weather], "weather server") == Some(Weather)
    ensures FindComponent([Weather], "oci://example.com/weather") == Some(Weather)
    ensures FindComponent([Weather], "OCI://EXAMPLE.COM/WEATHER") == None
  {
    EqIgnoreAsciiCaseIffLowerEqual(Weather.name, "weather server");
    assert Lower(Weather.name) == Lower("weather server");
    assert "OCI://EXAMPLE.COM/WEATHER"[0] != Weather.uri[0];
  }
}
