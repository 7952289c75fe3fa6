/** The wildcard filters that select tests by name. */
module Glob {
  import opened CText

  // ---------------------------------------------------------------- what a filter means

  /** '?' stands for one character, '*' for any text, anything else for itself. */
  predicate TokenMatches(token: char, part: string) {
    if token == '?' then |part| == 1 else if token == '*' then true else part == [token]
  }

  /** The text falls into one part per token of the pattern. */
  ghost predicate GlobMatches(pattern: string, str: string) {
    exists parts: seq<string> :: AreParts(pattern, str, parts)
  }

  ghost predicate AreParts(pattern: string, str: string, parts: seq<string>) {
    |parts| == |pattern| && Concat(parts) == str && forall k | 0 <= k < |parts| :: TokenMatches(pattern[k], parts[k])
  }

  /** Some ':'-separated segment of the filter matches the name. */
  ghost predicate FilterAccepts(filter: string, name: string) {
    SomeAccepts(Split(filter, ':'), name)
  }

  // ---------------------------------------------------------------- the matcher

  /** A pattern ends at its first ':' or at its end. */
  predicate PatternMatchesString(pattern: CString, str: CString)
    decreases |pattern| + |str|
  {
    if pattern == [] || pattern[0] == ':' then str == []
    else if pattern[0] == '?' then str != [] && PatternMatchesString(pattern[1..], str[1..])
    else if pattern[0] == '*' then
      (str != [] && PatternMatchesString(pattern, str[1..])) || PatternMatchesString(pattern[1..], str)
    else str != [] && pattern[0] == str[0] && PatternMatchesString(pattern[1..], str[1..])
  }

  /** The first token takes some prefix of the text and the other tokens the rest. */
  lemma GlobCons(token: char, pattern: string, str: string, k: nat)
    requires k <= |str| && TokenMatches(token, str[..k]) && GlobMatches(pattern, str[k..])
    ensures GlobMatches([token] + pattern, str)
  {
    var parts :| AreParts(pattern, str[k..], parts);
    var parts' := [str[..k]] + parts;
    assert parts'[1..] == parts;
    assert AreParts([token] + pattern, str, parts');
  }

  lemma GlobUncons(pattern: string, str: string) returns (k: nat)
    requires pattern != [] && GlobMatches(pattern, str)
    ensures k <= |str| && TokenMatches(pattern[0], str[..k]) && GlobMatches(pattern[1..], str[k..])
  {
    var parts :| AreParts(pattern, str, parts);
    k := |parts[0]|;
    assert str[..k] == parts[0] && str[k..] == Concat(parts[1..]);
    assert AreParts(pattern[1..], str[k..], parts[1..]);
  }

  lemma GlobEmpty(str: string)
    ensures GlobMatches([], str) <==> str == []
  {
    assert str == [] ==> AreParts([], str, []);
  }

  lemma GlobStar(pattern: string, str: string)
    requires pattern != [] && pattern[0] == '*'
    ensures GlobMatches(pattern, str) <==> GlobMatches(pattern[1..], str) || (str != [] && GlobMatches(pattern, str[1..]))
  {
    assert pattern == ['*'] + pattern[1..];
    assert str[0..] == str;
    if GlobMatches(pattern, str) {
      var k := GlobUncons(pattern, str);
      if k > 0 {
        assert str[k..] == str[1..][k - 1..];
        GlobCons('*', pattern[1..], str[1..], k - 1);
      }
    } else if str != [] && GlobMatches(pattern, str[1..]) {
      var k := GlobUncons(pattern, str[1..]);
      assert str[1..][k..] == str[k + 1..];
      GlobCons('*', pattern[1..], str, k + 1);
    } else if GlobMatches(pattern[1..], str) {
      GlobCons('*', pattern[1..], str, 0);
    }
  }

  lemma GlobOne(pattern: string, str: string)
    requires pattern != [] && pattern[0] != '*'
    ensures GlobMatches(pattern, str) <==>
              str != [] && (pattern[0] == '?' || pattern[0] == str[0]) && GlobMatches(pattern[1..], str[1..])
  {
    assert pattern == [pattern[0]] + pattern[1..];
    if GlobMatches(pattern, str) {
      var k := GlobUncons(pattern, str);
      assert |str[..k]| == 1;
    } else if str != [] && (pattern[0] == '?' || pattern[0] == str[0]) && GlobMatches(pattern[1..], str[1..]) {
      assert str[..1] == [str[0]];
      GlobCons(pattern[0], pattern[1..], str, 1);
    }
  }

  /** The backtracking matcher decides glob matching of the pattern up to its first ':' or end. */
  lemma {:induction false} PatternMatchesIff(pattern: CString, str: CString)
    ensures PatternMatchesString(pattern, str) <==> GlobMatches(pattern[..IndexOf(pattern, ':')], str)
    decreases |pattern| + |str|
  {
    var head := pattern[..IndexOf(pattern, ':')];
    if pattern == [] || pattern[0] == ':' {
      GlobEmpty(str);
    } else {
      assert head[1..] == pattern[1..][..IndexOf(pattern[1..], ':')];
      if pattern[0] == '*' {
        GlobStar(head, str);
        PatternMatchesIff(pattern[1..], str);
        if str != [] { PatternMatchesIff(pattern, str[1..]); }
      } else {
        GlobOne(head, str);
        if str != [] { PatternMatchesIff(pattern[1..], str[1..]); }
      }
    }
  }

  ghost predicate SomeAccepts(fields: seq<string>, name: string) {
    exists k :: 0 <= k < |fields| && GlobMatches(fields[k], name)
  }

  lemma SomeAcceptsCons(field: string, fields: seq<string>, name: string)
    ensures SomeAccepts([field] + fields, name) <==> GlobMatches(field, name) || SomeAccepts(fields, name)
  {
    hide GlobMatches;
    var all := [field] + fields;
    if SomeAccepts(all, name) {
      var k :| 0 <= k < |all| && GlobMatches(all[k], name);
      if k > 0 { assert GlobMatches(fields[k - 1], name); }
    } else {
      assert !GlobMatches(all[0], name);
      forall k | 0 <= k < |fields| ensures !GlobMatches(fields[k], name) {
        assert !GlobMatches(all[k + 1], name);
      }
    }
  }

  lemma FilterAcceptsStep(filter: string, name: string)
    ensures var i := IndexOf(filter, ':');
            FilterAccepts(filter, name) <==> GlobMatches(filter[..i], name) || (i < |filter| && FilterAccepts(filter[i + 1..], name))
  {
    hide GlobMatches, Split, IndexOf;
    var i := IndexOf(filter, ':');
    SplitStep(filter, ':');
    assert filter[..|filter|] == filter;
    if i < |filter| {
      SomeAcceptsCons(filter[..i], Split(filter[i + 1..], ':'), name);
    } else {
      SomeAcceptsCons(filter, [], name);
      assert [filter] + [] == [filter];
    }
  }

  method FindChar(s: CString, from: nat, c: char) returns (i: nat)
    requires from <= |s|
    ensures i == from + IndexOf(s[from..], c) <= |s|
  {
    i := from;
    while i < |s| && s[i] != c
      invariant from <= i <= |s| && i + IndexOf(s[i..], c) == from + IndexOf(s[from..], c)
    {
      assert s[i..][1..] == s[i + 1..];
      i := i + 1;
    }
  }

  method MatchesFilter(name: CString, filter: CString) returns (matched: bool)
    ensures matched <==> FilterAccepts(filter, name)
  {
    hide FilterAccepts, GlobMatches, PatternMatchesString, IndexOf;
    var cur := 0;
    assert filter[0..] == filter;
    while true
      invariant cur <= |filter|
      invariant FilterAccepts(filter, name) <==> FilterAccepts(filter[cur..], name)
      decreases |filter| - cur
    {
      var pattern := filter[cur..];
      PatternMatchesIff(pattern, name);
      FilterAcceptsStep(pattern, name);
      if PatternMatchesString(pattern, name) {
        return true;
      }
      var colon := FindChar(filter, cur, ':');
      if colon == |filter| {
        return false;
      }
      assert pattern[colon - cur + 1..] == filter[colon + 1..];
      cur := colon + 1;
    }
  }

  lemma UniversalAcceptsAll(name: string)
    ensures FilterAccepts("*", name)
  {
    assert Split("*", ':') == ["*"];
    assert Concat([name]) == name;
    assert AreParts("*", name, [name]);
    assert GlobMatches(Split("*", ':')[0], name);
  }

  lemma EmptyAcceptsNone(name: string)
    requires name != []
    ensures !FilterAccepts("", name)
  {
    FilterAcceptsStep("", name);
    GlobEmpty(name);
  }

  /**
   The --gtest_filter flag: positive segments, then after the first '-' negative ones.  Without a '-' nothing is excluded, and a
   leading '-' starts from every test.
   */
  ghost predicate FlagSelects(flag: string, name: string) {
    var dash := IndexOf(flag, '-');
    && (dash == 0 < |flag| || FilterAccepts(flag[..dash], name))
    && (dash < |flag| ==> !FilterAccepts(flag[dash + 1..], name))
  }

  method FilterMatchesTest(testCase: CString, test: CString, flag: CString) returns (matches: bool)
    ensures matches <==> FlagSelects(flag, testCase + "." + test)
  {
    var name := testCase + "." + test;
    var dash := FindChar(flag, 0, '-');
    assert flag[0..] == flag && flag[..|flag|] == flag;
    var positive: CString, negative: CString;
    if dash == |flag| {
      positive, negative := flag, "";
      EmptyAcceptsNone(name);
    } else {
      positive, negative := flag[..dash], flag[dash + 1..];
      if positive == "" {
        positive := "*";
        UniversalAcceptsAll(name);
      }
    }
    matches := MatchesFilter(name, positive);
    if matches {
      var excluded := MatchesFilter(name, negative);
      matches := !excluded;
    }
  }

  predicate IsPlain(c: char) { c != '*' && c != '?' && c != ':' && c != '-' }

  predicate IsPlainName(name: string) { forall k | 0 <= k < |name| :: IsPlain(name[k]) }

  lemma {:induction false} PlainPatternMatchesItself(pattern: string, name: string)
    requires IsPlainName(pattern)
    ensures GlobMatches(pattern, name) <==> pattern == name
  {
    if pattern == [] {
      GlobEmpty(name);
    } else {
      hide GlobMatches;
      GlobOne(pattern, name);
      assert pattern == [pattern[0]] + pattern[1..];
      if name != [] {
        PlainPatternMatchesItself(pattern[1..], name[1..]);
        assert name == [name[0]] + name[1..];
      }
    }
  }

  /** A full test name without special characters selects that test and no other. */
  lemma {:induction false} PlainNameSelectsItself(flag: string, name: string)
    requires IsPlainName(flag)
    ensures FlagSelects(flag, name) <==> name == flag
  {
    hide GlobMatches, FilterAccepts;
    assert IndexOf(flag, '-') == |flag| == IndexOf(flag, ':');
    assert flag[..|flag|] == flag;
    FilterAcceptsStep(flag, name);
    PlainPatternMatchesItself(flag, name);
  }

  // ---------------------------------------------------------------- the laws of filters

  ghost predicate GlobSplitsAt(p: string, q: string, str: string, k: nat) {
    k <= |str| && GlobMatches(p, str[..k]) && GlobMatches(q, str[k..])
  }

  /** One token: '?' is any one character, '*' anything at all, every other character itself. */
  lemma OneToken(token: char, str: string)
    ensures GlobMatches([token], str) <==> (token == '*' || (token == '?' && |str| == 1) || (token != '?' && str == [token]))
  {
    if GlobMatches([token], str) {
      var k := GlobUncons([token], str);
      GlobEmpty(str[k..]);
      assert str[..k] == str;
    }
    if TokenMatches(token, str) {
      GlobEmpty(str[|str|..]);
      assert str[..|str|] == str && [token] + [] == [token];
      GlobCons(token, [], str, |str|);
    }
  }

  /** Patterns one behind the other match texts one behind the other. */
  lemma {:induction false} GlobConcat(p: string, q: string, str: string)
    ensures GlobMatches(p + q, str) <==> exists k: nat :: GlobSplitsAt(p, q, str, k)
    decreases |p|
  {
    hide GlobMatches, TokenMatches;
    if p == [] {
      assert [] + q == q && str[0..] == str;
      forall k: nat | k <= |str| ensures GlobMatches([], str[..k]) <==> k == 0 { GlobEmpty(str[..k]); }
      assert GlobSplitsAt([], q, str, 0) <==> GlobMatches(q, str);
    } else {
      var c, rest := p[0], p[1..];
      assert (p + q)[1..] == rest + q && p + q == [c] + (rest + q) && p == [c] + rest;
      if GlobMatches(p + q, str) {
        var k := GlobUncons(p + q, str);
        GlobConcat(rest, q, str[k..]);
        var j: nat :| GlobSplitsAt(rest, q, str[k..], j);
        assert str[..k + j][..k] == str[..k] && str[..k + j][k..] == str[k..][..j] && str[k + j..] == str[k..][j..];
        GlobCons(c, rest, str[..k + j], k);
        assert GlobSplitsAt(p, q, str, k + j);
      }
      forall n: nat | GlobSplitsAt(p, q, str, n) ensures GlobMatches(p + q, str) {
        var k := GlobUncons(p, str[..n]);
        assert str[..n][..k] == str[..k] && str[..n][k..] == str[k..][..n - k] && str[n..] == str[k..][n - k..];
        GlobConcat(rest, q, str[k..]);
        assert GlobSplitsAt(rest, q, str[k..], n - k);
        GlobCons(c, rest + q, str, k);
      }
    }
  }

  /** Plain text with a '*' behind it is a prefix. */
  lemma PrefixPattern(text: string, str: string)
    requires IsPlainName(text)
    ensures GlobMatches(text + "*", str) <==> text <= str
  {
    hide GlobMatches, IsPlainName;
    GlobConcat(text, "*", str);
    forall k: nat | k <= |str| ensures GlobSplitsAt(text, "*", str, k) <==> str[..k] == text {
      OneToken('*', str[k..]);
      PlainPatternMatchesItself(text, str[..k]);
    }
    if text <= str { assert str[..|text|] == text && GlobSplitsAt(text, "*", str, |text|); }
  }

  /** With a '*' before it: a suffix of the pattern matches a suffix of the text. */
  lemma StarPattern(pattern: string, str: string)
    ensures GlobMatches("*" + pattern, str) <==> exists k: nat :: k <= |str| && GlobMatches(pattern, str[k..])
  {
    hide GlobMatches;
    GlobConcat("*", pattern, str);
    forall k: nat | k <= |str| ensures GlobSplitsAt("*", pattern, str, k) <==> GlobMatches(pattern, str[k..]) {
      OneToken('*', str[..k]);
    }
  }

  ghost predicate EndsWith(str: string, text: string) { exists before :: str == before + text }

  ghost predicate Contains(str: string, text: string) { exists before, after :: str == before + text + after }

  lemma SuffixPattern(text: string, str: string)
    requires IsPlainName(text)
    ensures GlobMatches("*" + text, str) <==> EndsWith(str, text)
  {
    hide GlobMatches, IsPlainName;
    StarPattern(text, str);
    forall k: nat | k <= |str| ensures GlobMatches(text, str[k..]) <==> str[k..] == text {
      PlainPatternMatchesItself(text, str[k..]);
    }
    if k: nat :| k <= |str| && str[k..] == text { assert str == str[..k] + text; }
    if before :| str == before + text { assert str[|before|..] == text; }
  }

  lemma ContainsPattern(text: string, str: string)
    requires IsPlainName(text)
    ensures GlobMatches("*" + (text + "*"), str) <==> Contains(str, text)
  {
    hide GlobMatches, IsPlainName;
    StarPattern(text + "*", str);
    forall k: nat | k <= |str| ensures GlobMatches(text + "*", str[k..]) <==> text <= str[k..] {
      PrefixPattern(text, str[k..]);
    }
    if k: nat :| k <= |str| && text <= str[k..] { assert str == str[..k] + text + str[k + |text|..]; }
    if before, after :| str == before + text + after { assert str[|before|..] == text + after; }
  }

  /** A filter without ':' is one pattern; ':' means either side. */
  lemma AcceptsOne(pattern: string, name: string)
    requires ':' !in pattern
    ensures FilterAccepts(pattern, name) <==> GlobMatches(pattern, name)
  {
    hide GlobMatches;
    FilterAcceptsStep(pattern, name);
    assert pattern[..|pattern|] == pattern;
  }

  lemma AcceptsEither(a: string, b: string, name: string)
    ensures FilterAccepts(a + ":" + b, name) <==> FilterAccepts(a, name) || FilterAccepts(b, name)
  {
    hide GlobMatches, Split;
    SplitOfAppend(a, ':', b);
    var x, y := Split(a, ':'), Split(b, ':');
    if SomeAccepts(x + y, name) {
      var k :| 0 <= k < |x + y| && GlobMatches((x + y)[k], name);
      assert k >= |x| ==> GlobMatches(y[k - |x|], name);
    }
    if SomeAccepts(x, name) {
      var k :| 0 <= k < |x| && GlobMatches(x[k], name);
      assert GlobMatches((x + y)[k], name);
    }
    if SomeAccepts(y, name) {
      var k :| 0 <= k < |y| && GlobMatches(y[k], name);
      assert GlobMatches((x + y)[|x| + k], name);
    }
  }

  /** The part of the flag behind the first '-' excludes what it accepts; without anything before it everything else is in. */
  lemma DashExcludes(positive: string, negative: string, name: string)
    requires '-' !in positive
    ensures FlagSelects(positive, name) <==> FilterAccepts(positive, name)
    ensures FlagSelects(positive + "-" + negative, name) <==>
              (positive == "" || FilterAccepts(positive, name)) && !FilterAccepts(negative, name)
  {
    hide FilterAccepts;
    IndexOfAppend(positive, '-', negative);
    var flag := positive + "-" + negative;
    assert flag[..|positive|] == positive && flag[|positive| + 1..] == negative;
    assert IndexOf(positive, '-') == |positive| && positive[..|positive|] == positive;
  }

  /** Excluding one full test name excludes that test and no other. */
  lemma {:induction false} PlainNameExcludesItself(plain: string, name: string)
    requires IsPlainName(plain)
    ensures FlagSelects("-" + plain, name) <==> name != plain
  {
    hide GlobMatches, FilterAccepts, FlagSelects;
    DashExcludes("", plain, name);
    assert "" + "-" + plain == "-" + plain;
    assert ':' !in plain;
    AcceptsOne(plain, name);
    PlainPatternMatchesItself(plain, name);
  }
}
