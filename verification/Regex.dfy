/** The simple regular expressions: their grammar, their language, the validator and the backtracking matcher. */
module Regex {
  import opened CText

  const SIZE_MAX := 0xFFFF_FFFF_FFFF_FFFF

  // ---------------------------------------------------------------- grammar

  datatype Atom = Plain(c: char) | Escaped(c: char)
  datatype Repeat = Once | Optional | Star | Plus
  datatype Item = Item(atom: Atom, repeat: Repeat)

  /** Items between optional anchors. */
  datatype Pattern = Pattern(start: bool, items: seq<Item>, end: bool)

  predicate IsAsciiPunct(c: char) { c in "^-!\"#$%&'()*+,./:;<=>?@[\\]_`{|}~" }
  predicate IsRepeat(c: char) { c == '?' || c == '*' || c == '+' }
  predicate IsAnchor(c: char) { c == '^' || c == '$' }
  predicate IsUnsupported(c: char) { c in {'(', ')', '[', ']', '{', '}', '|'} }
  predicate IsValidEscape(c: char) { IsAsciiPunct(c) || c in "dDfnrsStvwW" }

  predicate IsAtom(a: Atom) {
    match a
    case Plain(c) => c != '\\' && !IsAnchor(c) && !IsRepeat(c) && !IsUnsupported(c) && c != '\0'
    case Escaped(c) => IsValidEscape(c)
  }

  ghost predicate AreItems(items: seq<Item>) { forall k | 0 <= k < |items| :: IsAtom(items[k].atom) }

  function PrintAtom(a: Atom): string {
    match a case Plain(c) => [c] case Escaped(c) => ['\\', c]
  }

  function PrintRepeat(r: Repeat): string {
    match r case Once => "" case Optional => "?" case Star => "*" case Plus => "+"
  }

  /** Items followed by the end anchor, if any. */
  function PrintTail(items: seq<Item>, end: bool): string {
    if items == [] then (if end then "$" else "")
    else PrintAtom(items[0].atom) + PrintRepeat(items[0].repeat) + PrintTail(items[1..], end)
  }

  function Print(p: Pattern): string {
    (if p.start then "^" else "") + PrintTail(p.items, p.end)
  }

  // ---------------------------------------------------------------- language

  predicate IsAsciiDigit(c: char) { '0' <= c <= '9' }
  predicate IsAsciiWhiteSpace(c: char) { c in " \U{0C}\n\r\t\U{0B}" }
  predicate IsAsciiWordChar(c: char) { 'a' <= c <= 'z' || 'A' <= c <= 'Z' || '0' <= c <= '9' || c == '_' }

  predicate AtomMatchesChar(escaped: bool, patternChar: char, ch: char) {
    if escaped then
      match patternChar
      case 'd' => IsAsciiDigit(ch)
      case 'D' => !IsAsciiDigit(ch)
      case 'f' => ch == '\U{0C}'
      case 'n' => ch == '\n'
      case 'r' => ch == '\r'
      case 's' => IsAsciiWhiteSpace(ch)
      case 'S' => !IsAsciiWhiteSpace(ch)
      case 't' => ch == '\t'
      case 'v' => ch == '\U{0B}'
      case 'w' => IsAsciiWordChar(ch)
      case 'W' => !IsAsciiWordChar(ch)
      case _ => IsAsciiPunct(patternChar) && patternChar == ch
    else (patternChar == '.' && ch != '\n') || patternChar == ch
  }

  /** What an atom stands for: one of some characters, or any but some. */
  datatype Class = Of(chars: set<char>) | AllBut(chars: set<char>)

  function Digits(): set<char> { {'0', '1', '2', '3', '4', '5', '6', '7', '8', '9'} }

  function Blanks(): set<char> { {' ', '\t', '\n', '\U{0B}', '\U{0C}', '\r'} }

  /** By their place in ASCII. */
  predicate IsLetter(c: char) { 0x41 <= c as int <= 0x5A || 0x61 <= c as int <= 0x7A }

  function Letters(): set<char> { set c: char | IsLetter(c) }

  /** The punctuation characters, by their place in ASCII: between the blank, the digits, the letters and the end. */
  predicate IsPunctuation(c: char) {
    || 0x21 <= c as int <= 0x2F || 0x3A <= c as int <= 0x40 || 0x5B <= c as int <= 0x60 || 0x7B <= c as int <= 0x7E
  }

  function ClassOf(a: Atom): Class {
    match a
    case Plain(c) => if c == '.' then AllBut({'\n'}) else Of({c})
    case Escaped(c) =>
      match c
      case 'd' => Of(Digits())
      case 'D' => AllBut(Digits())
      case 's' => Of(Blanks())
      case 'S' => AllBut(Blanks())
      case 'w' => Of(Letters() + Digits() + {'_'})
      case 'W' => AllBut(Letters() + Digits() + {'_'})
      case 'f' => Of({'\U{0C}'})
      case 'n' => Of({'\n'})
      case 'r' => Of({'\r'})
      case 't' => Of({'\t'})
      case 'v' => Of({'\U{0B}'})
      case _ => if IsPunctuation(c) then Of({c}) else Of({})
  }

  predicate Matches(a: Atom, ch: char) {
    match ClassOf(a) case Of(chars) => ch in chars case AllBut(chars) => ch !in chars
  }

  /** The code's case distinction decides the classes, of every atom. */
  lemma AtomMatchesIff(a: Atom, ch: char)
    ensures AtomMatchesChar(a.Escaped?, a.c, ch) <==> Matches(a, ch)
  {
    PunctuationIff(a.c);
    DigitIff(ch);
    BlankIff(ch);
    WordIff(ch);
    hide Digits, Blanks, Letters, IsAsciiDigit, IsAsciiWhiteSpace, IsAsciiWordChar, IsAsciiPunct, IsPunctuation;
  }

  lemma PunctuationIff(c: char)
    ensures IsAsciiPunct(c) <==> IsPunctuation(c)
  {
  }

  lemma DigitIff(c: char)
    ensures IsAsciiDigit(c) <==> c in Digits()
  {
  }

  lemma BlankIff(c: char)
    ensures IsAsciiWhiteSpace(c) <==> c in Blanks()
  {
  }

  lemma WordIff(c: char)
    ensures IsAsciiWordChar(c) <==> c in Letters() + Digits() + {'_'}
  {
  }

  /** The escapes that are accepted: the eleven class letters and all punctuation. */
  lemma ValidEscapeIff(c: char)
    ensures IsValidEscape(c) <==> c in {'d', 'D', 'f', 'n', 'r', 's', 'S', 't', 'v', 'w', 'W'} || IsPunctuation(c)
  {
    PunctuationIff(c);
    hide IsAsciiPunct, IsPunctuation;
  }

  predicate CountAllowed(r: Repeat, n: nat) {
    match r case Once => n == 1 case Optional => n <= 1 case Star => true case Plus => n >= 1
  }

  ghost predicate ItemMatches(item: Item, part: string) {
    CountAllowed(item.repeat, |part|) && forall k | 0 <= k < |part| :: Matches(item.atom, part[k])
  }

  ghost predicate AreParts(items: seq<Item>, w: string, parts: seq<string>) {
    |parts| == |items| && Concat(parts) == w && forall k | 0 <= k < |parts| :: ItemMatches(items[k], parts[k])
  }

  /** w falls into one part per item. */
  ghost predicate InLanguage(items: seq<Item>, w: string) {
    exists parts: seq<string> :: AreParts(items, w, parts)
  }

  /** Some substring, anchored as written, is in the language. */
  ghost predicate Finds(p: Pattern, str: string) {
    exists i: nat, j: nat | i <= j <= |str| ::
      InLanguage(p.items, str[i..j]) && (p.start ==> i == 0) && (p.end ==> j == |str|)
  }

  /** Some prefix (with the end anchor: the whole text) is in the language. */
  ghost predicate HeadMatches(items: seq<Item>, end: bool, str: string) {
    exists j: nat | j <= |str| :: InLanguage(items, str[..j]) && (end ==> j == |str|)
  }

  // ---------------------------------------------------------------- the validator accepts exactly the printed patterns

  /** The validator's verdict on the rest of a pattern; prev says whether a repetition may follow here. */
  predicate ValidFrom(rest: string, first: bool, prev: bool)
    decreases |rest|
  {
    if rest == [] then true
    else if rest[0] == '\\' then |rest| > 1 && IsValidEscape(rest[1]) && ValidFrom(rest[2..], false, true)
    else
      && !(rest[0] == '^' && !first)
      && !(rest[0] == '$' && |rest| > 1)
      && !IsUnsupported(rest[0])
      && !(IsRepeat(rest[0]) && !prev)
      && ValidFrom(rest[1..], false, !IsAnchor(rest[0]) && !IsRepeat(rest[0]))
  }

  method ValidateRegex(regex: Option<CString>) returns (valid: bool)
    ensures valid <==> regex.Some? && ValidFrom(regex.value, true, false)
  {
    if regex == None {
      return false;
    }
    var r := regex.value;
    valid := true;
    var prev := false;
    var i := 0;
    assert r[0..] == r;
    while i < |r|
      invariant 0 <= i <= |r|
      invariant valid && ValidFrom(r[i..], i == 0, prev) <==> ValidFrom(r, true, false)
      decreases |r| - i
    {
      ghost var rest := r[i..];
      if r[i] == '\\' {
        i := i + 1;
        if i == |r| {
          return false;
        }
        if !IsValidEscape(r[i]) {
          valid := false;
        }
        prev := true;
        assert rest[2..] == r[i + 1..];
      } else {
        var ch := r[i];
        if ch == '^' && i > 0 {
          valid := false;
        } else if ch == '$' && i + 1 < |r| {
          valid := false;
        } else if IsUnsupported(ch) {
          valid := false;
        } else if IsRepeat(ch) && !prev {
          valid := false;
        }
        prev := !IsAnchor(ch) && !IsRepeat(ch);
        assert rest[1..] == r[i + 1..];
      }
      i := i + 1;
    }
  }

  lemma NotRepeatAnyPrev(rest: string, first: bool)
    requires rest == [] || !IsRepeat(rest[0])
    ensures ValidFrom(rest, first, true) == ValidFrom(rest, first, false)
  {
  }

  lemma ValidAfterAtom(a: Atom, rest: string, first: bool, prev: bool)
    requires IsAtom(a)
    ensures ValidFrom(PrintAtom(a) + rest, first, prev) == ValidFrom(rest, false, true)
    ensures !IsRepeat((PrintAtom(a) + rest)[0]) && (PrintAtom(a) + rest)[0] != '^'
  {
    hide IsValidEscape;
    var s := PrintAtom(a) + rest;
    assert s[|PrintAtom(a)|..] == rest;
  }

  lemma ValidAfterRepeat(r: Repeat, rest: string)
    ensures r != Once ==> ValidFrom(PrintRepeat(r) + rest, false, true) == ValidFrom(rest, false, false)
    ensures r == Once ==> PrintRepeat(r) + rest == rest
  {
    if r != Once { assert (PrintRepeat(r) + rest)[1..] == rest; }
  }

  lemma {:induction false} PrintedIsValid(items: seq<Item>, end: bool, first: bool, prev: bool)
    requires AreItems(items)
    ensures ValidFrom(PrintTail(items, end), first, prev)
    ensures PrintTail(items, end) != [] ==> !IsRepeat(PrintTail(items, end)[0]) && PrintTail(items, end)[0] != '^'
    decreases |items|
  {
    if items == [] {
      assert end ==> "$"[1..] == "";
    } else {
      hide ValidFrom, IsAtom;
      var rest := PrintTail(items[1..], end);
      var a, r := items[0].atom, items[0].repeat;
      assert IsAtom(a);
      assert PrintTail(items, end) == PrintAtom(a) + (PrintRepeat(r) + rest);
      ValidAfterAtom(a, PrintRepeat(r) + rest, first, prev);
      ValidAfterRepeat(r, rest);
      PrintedIsValid(items[1..], end, false, r == Once);
    }
  }

  /** One item at the front of a valid text. */
  lemma ParseItem(rest: string) returns (item: Item, more: string)
    requires ValidFrom(rest, false, false) && '\0' !in rest && rest != [] && rest[0] != '$'
    ensures IsAtom(item.atom) && rest == PrintAtom(item.atom) + PrintRepeat(item.repeat) + more
    ensures ValidFrom(more, false, false)
  {
    hide IsValidEscape;
    var a := if rest[0] == '\\' then Escaped(rest[1]) else Plain(rest[0]);
    var after := rest[|PrintAtom(a)|..];
    assert ValidFrom(after, false, true);
    if after != [] && IsRepeat(after[0]) {
      item := Item(a, if after[0] == '?' then Optional else if after[0] == '*' then Star else Plus);
      more := after[1..];
    } else {
      NotRepeatAnyPrev(after, false);
      item, more := Item(a, Once), after;
    }
  }

  /** Reads the items and the end anchor back. */
  lemma {:induction false} ParseTail(rest: string) returns (items: seq<Item>, end: bool)
    requires ValidFrom(rest, false, false) && '\0' !in rest
    ensures AreItems(items) && rest == PrintTail(items, end)
    decreases |rest|
  {
    if rest == [] {
      items, end := [], false;
    } else if rest[0] == '$' {
      items, end := [], true;
      assert rest == "$";
    } else {
      hide ValidFrom, IsAtom;
      var item, more := ParseItem(rest);
      var items', end' := ParseTail(more);
      items, end := [item] + items', end';
      assert items[1..] == items';
    }
  }

  ghost predicate IsPattern(p: Pattern) { AreItems(p.items) }

  /** A pattern is valid exactly when it is the text of some sequence of items between optional anchors. */
  lemma ValidIffPrinted(regex: CString)
    ensures ValidFrom(regex, true, false) <==> exists p :: IsPattern(p) && regex == Print(p)
  {
    if ValidFrom(regex, true, false) {
      var p := Parse(regex);
    }
    forall p | IsPattern(p) && regex == Print(p) ensures ValidFrom(regex, true, false) {
      PrintedIsValid(p.items, p.end, !p.start, false);
      assert regex[if p.start then 1 else 0..] == PrintTail(p.items, p.end);
    }
  }

  lemma Parse(regex: CString) returns (p: Pattern)
    requires ValidFrom(regex, true, false)
    ensures IsPattern(p) && regex == Print(p)
  {
    if regex != [] && regex[0] == '^' {
      var items, end := ParseTail(regex[1..]);
      p := Pattern(true, items, end);
    } else {
      var items, end := ParseTail(regex);
      p := Pattern(false, items, end);
    }
  }

  // ---------------------------------------------------------------- language by its first item

  lemma LanguageCons(item: Item, items: seq<Item>, w: string, k: nat)
    requires k <= |w| && ItemMatches(item, w[..k]) && InLanguage(items, w[k..])
    ensures InLanguage([item] + items, w)
  {
    hide ItemMatches;
    var parts :| AreParts(items, w[k..], parts);
    var parts' := [w[..k]] + parts;
    assert parts'[1..] == parts;
    assert AreParts([item] + items, w, parts');
  }

  lemma LanguageUncons(items: seq<Item>, w: string) returns (k: nat)
    requires items != [] && InLanguage(items, w)
    ensures k <= |w| && ItemMatches(items[0], w[..k]) && InLanguage(items[1..], w[k..])
  {
    hide ItemMatches;
    var parts :| AreParts(items, w, parts);
    k := |parts[0]|;
    assert w[..k] == parts[0] && w[k..] == Concat(parts[1..]);
    assert AreParts(items[1..], w[k..], parts[1..]);
  }

  lemma LanguageEmpty(w: string)
    ensures InLanguage([], w) <==> w == []
  {
    assert w == [] ==> AreParts([], w, []);
  }

  /** A head match of an item and a tail is a prefix for the item and a head match of the tail behind it. */
  ghost predicate HeadSplit(item: Item, items: seq<Item>, end: bool, str: string, k: nat) {
    k <= |str| && ItemMatches(item, str[..k]) && HeadMatches(items, end, str[k..])
  }

  lemma HeadIffSplit(item: Item, items: seq<Item>, end: bool, str: string)
    ensures HeadMatches([item] + items, end, str) <==> exists k :: HeadSplit(item, items, end, str, k)
  {
    hide ItemMatches, InLanguage;
    var all := [item] + items;
    if HeadMatches(all, end, str) {
      var j: nat :| j <= |str| && InLanguage(all, str[..j]) && (end ==> j == |str|);
      var k := LanguageUncons(all, str[..j]);
      assert str[..j][..k] == str[..k] && str[..j][k..] == str[k..][..j - k];
      assert HeadSplit(item, items, end, str, k);
    }
    forall k: nat | HeadSplit(item, items, end, str, k) ensures HeadMatches(all, end, str) {
      var j: nat :| j <= |str[k..]| && InLanguage(items, str[k..][..j]) && (end ==> j == |str[k..]|);
      assert str[..k + j][..k] == str[..k] && str[..k + j][k..] == str[k..][..j];
      LanguageCons(item, items, str[..k + j], k);
    }
  }

  lemma HeadOfNothing(end: bool, str: string)
    ensures HeadMatches([], end, str) <==> !end || str == []
  {
    LanguageEmpty(str[..0]);
    LanguageEmpty(str[..|str|]);
    if !end || str == [] {
      assert InLanguage([], str[..0]) && (end ==> 0 == |str|);
    }
    if HeadMatches([], end, str) && end {
      var j: nat :| j <= |str| && InLanguage([], str[..j]) && (end ==> j == |str|);
    }
  }

  // ---------------------------------------------------------------- the matcher

  /** Tries ever longer runs of the atom, and the rest of the pattern behind each. */
  method MatchRepetitionAndRegexAtHead(escaped: bool, c: char, repeat: char, regex: CString, str: CString,
                                       ghost item: Item, ghost items: seq<Item>, ghost end: bool) returns (matched: bool)
    requires AreItems(items) && regex == PrintTail(items, end) && |str| < SIZE_MAX
    requires item.atom == (if escaped then Escaped(c) else Plain(c)) && PrintRepeat(item.repeat) == [repeat]
    ensures matched <==> HeadMatches([item] + items, end, str)
    decreases |regex|, 1
  {
    hide InLanguage, HeadMatches, AtomMatchesChar, Matches, PrintTail, IsAtom;
    HeadIffSplit(item, items, end, str);
    var minCount := if repeat == '+' then 1 else 0;
    var maxCount := if repeat == '?' then 1 else SIZE_MAX - 1;
    var i := 0;
    while i <= maxCount
      invariant 0 <= i <= |str| && i <= maxCount + 1
      invariant forall k | 0 <= k < i :: Matches(item.atom, str[k])
      invariant forall k: nat | k < i :: !HeadSplit(item, items, end, str, k)
      decreases maxCount - i
    {
      if i >= minCount {
        var rest := MatchRegexAtHead(regex, str[i..], items, end);
        if rest {
          assert HeadSplit(item, items, end, str, i);
          return true;
        }
      }
      assert !HeadSplit(item, items, end, str, i);
      if i < |str| { AtomMatchesIff(item.atom, str[i]); }
      if i == |str| || !AtomMatchesChar(escaped, c, str[i]) {
        NoLongerSplit(item, items, end, str, i);
        return false;
      }
      i := i + 1;
    }
    return false;
  }

  /** Beyond a character the atom does not match, no longer run of it matches either. */
  lemma NoLongerSplit(item: Item, items: seq<Item>, end: bool, str: string, i: nat)
    requires i == |str| || (i < |str| && !Matches(item.atom, str[i]))
    ensures forall k: nat | i < k :: !HeadSplit(item, items, end, str, k)
  {
    forall k: nat | i < k ensures !HeadSplit(item, items, end, str, k) {
      if k <= |str| { assert str[..k][i] == str[i]; }
    }
  }

  lemma HeadOfOnce(item: Item, items: seq<Item>, end: bool, str: string)
    requires item.repeat == Once
    ensures HeadMatches([item] + items, end, str) <==>
              str != [] && Matches(item.atom, str[0]) && HeadMatches(items, end, str[1..])
  {
    hide HeadMatches, Matches;
    HeadIffSplit(item, items, end, str);
    if str != [] {
      assert str[..1] == [str[0]];
      assert HeadSplit(item, items, end, str, 1) <==> Matches(item.atom, str[0]) && HeadMatches(items, end, str[1..]);
    }
  }

  method MatchRegexAtHead(regex: CString, str: CString, ghost items: seq<Item>, ghost end: bool) returns (matched: bool)
    requires AreItems(items) && regex == PrintTail(items, end) && |str| < SIZE_MAX
    ensures matched <==> HeadMatches(items, end, str)
    decreases |regex|, 0
  {
    hide InLanguage, HeadMatches, AtomMatchesChar, Matches, IsValidEscape;
    HeadOfNothing(end, str);
    if regex == [] {
      return true;
    }
    ghost var atom := if items == [] then Plain('$') else items[0].atom;
    if regex[0] == '$' {
      return str == [];
    }
    var escaped := regex[0] == '\\';
    var at := if escaped then 1 else 0;
    assert IsAtom(atom);
    PrintedIsValid(items[1..], end, false, false);
    ghost var tail := PrintTail(items[1..], end);
    assert regex == PrintAtom(atom) + PrintRepeat(items[0].repeat) + tail;
    assert items == [items[0]] + items[1..];
    if at + 1 < |regex| && IsRepeat(regex[at + 1]) {
      assert regex[at + 2..] == tail;
      matched := MatchRepetitionAndRegexAtHead(escaped, regex[at], regex[at + 1], regex[at + 2..], str, items[0], items[1..], end);
    } else {
      assert regex[at + 1..] == tail;
      HeadOfOnce(items[0], items[1..], end, str);
      if str != [] { AtomMatchesIff(items[0].atom, str[0]); }
      if str == [] || !AtomMatchesChar(escaped, regex[at], str[0]) {
        return false;
      }
      matched := MatchRegexAtHead(regex[at + 1..], str[1..], items[1..], end);
    }
  }

  lemma FindsIffHead(p: Pattern, str: string)
    ensures Finds(p, str) <==> exists i: nat | i <= |str| :: (p.start ==> i == 0) && HeadMatches(p.items, p.end, str[i..])
  {
    hide InLanguage;
    if Finds(p, str) {
      var i: nat, j: nat :| i <= j <= |str| && InLanguage(p.items, str[i..j]) && (p.start ==> i == 0) && (p.end ==> j == |str|);
      assert str[i..j] == str[i..][..j - i];
      assert HeadMatches(p.items, p.end, str[i..]);
    }
    forall i: nat | i <= |str| && (p.start ==> i == 0) && HeadMatches(p.items, p.end, str[i..]) ensures Finds(p, str) {
      var j: nat :| j <= |str[i..]| && InLanguage(p.items, str[i..][..j]) && (p.end ==> j == |str[i..]|);
      assert str[i..i + j] == str[i..][..j];
    }
  }

  method MatchRegexAnywhere(regex: Option<CString>, str: Option<CString>, ghost p: Pattern) returns (matched: bool)
    requires regex.Some? ==> IsPattern(p) && regex.value == Print(p)
    requires str.Some? ==> |str.value| < SIZE_MAX
    ensures matched <==> regex.Some? && str.Some? && Finds(p, str.value)
  {
    hide HeadMatches, Finds, ValidFrom;
    if regex == None || str == None {
      return false;
    }
    var r, s := regex.value, str.value;
    PrintedIsValid(p.items, p.end, false, false);
    assert r[if p.start then 1 else 0..] == PrintTail(p.items, p.end);
    FindsIffHead(p, s);
    assert s[0..] == s;
    if r != [] && r[0] == '^' {
      matched := MatchRegexAtHead(r[1..], s, p.items, p.end);
      return;
    }
    var at := 0;
    while true
      invariant 0 <= at <= |s|
      invariant forall i: nat | i < at :: !HeadMatches(p.items, p.end, s[i..])
      decreases |s| - at
    {
      var head := MatchRegexAtHead(r, s[at..], p.items, p.end);
      if head {
        return true;
      }
      if at == |s| {
        return false;
      }
      at := at + 1;
    }
  }

  // ---------------------------------------------------------------- the compiled expression

  /** The text Init builds for a full match. */
  function FullText(regex: string): string {
    (if regex == [] || regex[0] != '^' then "^" else "") + regex + (if regex == [] || regex[|regex| - 1] != '$' then "$" else "")
  }

  /** The last character of the text is an escaped '$', which Init takes for an end anchor. */
  predicate EndsInEscapedDollar(p: Pattern) {
    !p.end && p.items != [] && p.items[|p.items| - 1] == Item(Escaped('$'), Once)
  }

  lemma {:induction false} LastOfTail(items: seq<Item>, end: bool)
    requires AreItems(items)
    ensures var t := PrintTail(items, end);
            && (t == [] <==> items == [] && !end)
            && (t != [] ==> (t[|t| - 1] == '$' <==> end || EndsInEscapedDollar(Pattern(false, items, end))))
    ensures PrintTail(items, true) == PrintTail(items, false) + "$"
  {
    hide IsValidEscape;
    if items != [] {
      LastOfTail(items[1..], end);
      assert IsAtom(items[0].atom);
    }
  }

  lemma FullTextIsPattern(p: Pattern)
    requires IsPattern(p)
    ensures FullText(Print(p)) == Print(Pattern(true, p.items, !EndsInEscapedDollar(p)))
  {
    hide PrintTail, ValidFrom, IsAtom;
    var tail := PrintTail(p.items, p.end);
    PrintedIsValid(p.items, p.end, false, false);
    LastOfTail(p.items, p.end);
    assert Print(p) == (if p.start then "^" else "") + tail;
    BothAnchors(p.start, tail);
  }

  /** Init puts a '^' in front unless there is one, and a '$' behind unless there is one. */
  lemma BothAnchors(start: bool, tail: string)
    requires tail != [] ==> tail[0] != '^'
    ensures FullText((if start then "^" else "") + tail) == "^" + tail + (if tail == [] || tail[|tail| - 1] != '$' then "$" else "")
  {
    var regex := (if start then "^" else "") + tail;
    if tail == [] {
      assert regex == if start then "^" else "";
    } else {
      assert regex[|regex| - 1] == tail[|tail| - 1];
      assert regex[0] == if start then '^' else tail[0];
      assert start ==> regex == "^" + tail;
      assert !start ==> regex == tail;
    }
  }

  class RE {
    var pattern: Option<CString>
    var fullPattern: Option<CString>
    var isValid: bool

    ghost predicate Valid()
      reads this
    {
      && (isValid <==> pattern.Some? && ValidFrom(pattern.value, true, false))
      && (isValid ==> fullPattern == Some(FullText(pattern.value)))
    }

    constructor Init(regex: Option<CString>)
      ensures Valid() && pattern == regex
    {
      pattern, fullPattern := regex, None;
      isValid := false;
      new;
      var valid := ValidateRegex(regex);
      isValid := valid;
      if isValid {
        var r := regex.value;
        var buffer: CString := "";
        if r == [] || r[0] != '^' {
          buffer := buffer + "^";
        }
        buffer := buffer + r;
        if |r| == 0 || r[|r| - 1] != '$' {
          buffer := buffer + "$";
        }
        assert buffer == FullText(r);
        fullPattern := Some(buffer);
      }
    }

    /** A valid expression partially matches exactly the texts in which its pattern finds a substring. */
    static method PartialMatch(str: Option<CString>, re: RE) returns (matched: bool)
      requires re.Valid() && (str.Some? ==> |str.value| < SIZE_MAX)
      ensures matched ==> re.isValid && str.Some?
      ensures re.isValid && str.Some? ==>
                forall p | IsPattern(p) && re.pattern.value == Print(p) :: matched <==> Finds(p, str.value)
    {
      hide Finds;
      if !re.isValid {
        return false;
      }
      ghost var p0 := Parse(re.pattern.value);
      matched := MatchRegexAnywhere(re.pattern, str, p0);
      forall p | IsPattern(p) && re.pattern.value == Print(p)
        ensures str.Some? ==> (matched <==> Finds(p, str.value))
      {
        PrintIsInjective(p0, p);
      }
    }

    /** Full matching is membership of the whole text, except that after an escaped '$' any prefix will do. */
    static method FullMatch(str: Option<CString>, re: RE) returns (matched: bool)
      requires re.Valid() && (str.Some? ==> |str.value| < SIZE_MAX)
      ensures matched ==> re.isValid && str.Some?
      ensures re.isValid && str.Some? ==>
                forall p | IsPattern(p) && re.pattern.value == Print(p) :: matched <==> FullyMatches(p, str.value)
    {
      hide InLanguage;
      if !re.isValid {
        return false;
      }
      ghost var p0 := Parse(re.pattern.value);
      FullTextIsPattern(p0);
      matched := MatchRegexAnywhere(re.fullPattern, str, Pattern(true, p0.items, !EndsInEscapedDollar(p0)));
      forall p | IsPattern(p) && re.pattern.value == Print(p)
        ensures str.Some? ==> (matched <==> FullyMatches(p, str.value))
      {
        PrintIsInjective(p0, p);
        if str.Some? { AnchoredFinds(p.items, !EndsInEscapedDollar(p), str.value); }
      }
    }
  }

  ghost predicate FullyMatches(p: Pattern, str: string) {
    if EndsInEscapedDollar(p) then exists j: nat | j <= |str| :: InLanguage(p.items, str[..j]) else InLanguage(p.items, str)
  }

  lemma AnchoredFinds(items: seq<Item>, end: bool, str: string)
    ensures Finds(Pattern(true, items, end), str) <==>
              if end then InLanguage(items, str) else exists j: nat | j <= |str| :: InLanguage(items, str[..j])
  {
    hide InLanguage;
    assert forall j: nat | j <= |str| :: str[0..j] == str[..j];
    assert str[..|str|] == str;
  }

  /** A text is the print of at most one pattern. */
  lemma PrintIsInjective(p: Pattern, q: Pattern)
    requires IsPattern(p) && IsPattern(q) && Print(p) == Print(q)
    ensures p == q
  {
    PrintedIsValid(p.items, p.end, false, false);
    PrintedIsValid(q.items, q.end, false, false);
    assert Print(p)[if p.start then 1 else 0..] == PrintTail(p.items, p.end);
    assert Print(q)[if q.start then 1 else 0..] == PrintTail(q.items, q.end);
    TailIsInjective(p.items, p.end, q.items, q.end);
  }

  lemma {:induction false} TailIsInjective(items: seq<Item>, end: bool, items': seq<Item>, end': bool)
    requires AreItems(items) && AreItems(items') && PrintTail(items, end) == PrintTail(items', end')
    ensures items == items' && end == end'
    decreases |items|
  {
    LastOfTail(items, end);
    LastOfTail(items', end');
    if items != [] && items' != [] {
      assert IsAtom(items[0].atom) && IsAtom(items'[0].atom);
      PrintedIsValid(items[1..], end, false, false);
      PrintedIsValid(items'[1..], end', false, false);
      SameFirstItem(items[0], PrintTail(items[1..], end), items'[0], PrintTail(items'[1..], end'));
      TailIsInjective(items[1..], end, items'[1..], end');
      assert items == [items[0]] + items[1..] && items' == [items'[0]] + items'[1..];
    }
  }

  lemma SameFirstItem(x: Item, rest: string, y: Item, rest': string)
    requires IsAtom(x.atom) && IsAtom(y.atom)
    requires (rest != [] ==> !IsRepeat(rest[0])) && (rest' != [] ==> !IsRepeat(rest'[0]))
    requires PrintAtom(x.atom) + PrintRepeat(x.repeat) + rest == PrintAtom(y.atom) + PrintRepeat(y.repeat) + rest'
    ensures x == y && rest == rest'
  {
    hide PrintAtom, PrintRepeat, IsAtom;
    var a, b := PrintRepeat(x.repeat) + rest, PrintRepeat(y.repeat) + rest';
    assert PrintAtom(x.atom) + PrintRepeat(x.repeat) + rest == PrintAtom(x.atom) + a;
    assert PrintAtom(y.atom) + PrintRepeat(y.repeat) + rest' == PrintAtom(y.atom) + b;
    SameFirstAtom(x.atom, a, y.atom, b);
    SameRepeat(x.repeat, rest, y.repeat, rest');
  }

  lemma SameFirstAtom(x: Atom, rest: string, y: Atom, rest': string)
    requires IsAtom(x) && IsAtom(y) && PrintAtom(x) + rest == PrintAtom(y) + rest'
    ensures x == y && rest == rest'
  {
    hide IsValidEscape;
    var s := PrintAtom(x) + rest;
    assert s[0] == PrintAtom(x)[0] && s[0] == PrintAtom(y)[0];
    var n := |PrintAtom(x)|;
    assert s[..n] == PrintAtom(x) && s[..n] == PrintAtom(y);
    assert s[n..] == rest && s[n..] == rest';
  }

  lemma SameRepeat(x: Repeat, rest: string, y: Repeat, rest': string)
    requires (rest != [] ==> !IsRepeat(rest[0])) && (rest' != [] ==> !IsRepeat(rest'[0]))
    requires PrintRepeat(x) + rest == PrintRepeat(y) + rest'
    ensures x == y && rest == rest'
  {
    var s := PrintRepeat(x) + rest;
    var n := |PrintRepeat(x)|;
    assert if x == Once then s == rest else s[0] == PrintRepeat(x)[0];
    assert if y == Once then s == rest' else s[0] == PrintRepeat(y)[0];
    assert s[n..] == rest && s[n..] == rest';
  }

  // ---------------------------------------------------------------- when full matching means what it says

  /** A character each valid atom matches. */
  function Sample(a: Atom): char {
    match a
    case Plain(c) => c
    case Escaped(c) =>
      match c case 'd' => '0' case 'D' => 'a' case 'f' => '\U{0C}' case 'n' => '\n' case 'r' => '\r' case 's' => ' '
              case 'S' => 'a' case 't' => '\t' case 'v' => '\U{0B}' case 'w' => 'a' case 'W' => ' ' case _ => c
  }

  lemma SampleMatches(a: Atom)
    requires IsAtom(a) && '\0' !in PrintAtom(a)
    ensures Matches(a, Sample(a)) && Sample(a) != '\0' && PrintAtom(a) != []
  {
    AtomMatchesIff(a, Sample(a));
    hide Matches;
    match a
    case Plain(c) =>
    case Escaped(c) =>
      assert PrintAtom(a)[1] == c;
      ValidEscapeIff(c);
      hide IsValidEscape;
      if IsAsciiPunct(c) { PunctuationIff(c); }
  }

  lemma {:induction false} LanguageIsInhabited(items: seq<Item>) returns (w: string)
    requires AreItems(items) && '\0' !in PrintTail(items, false)
    ensures InLanguage(items, w) && |w| == |items| <= |PrintTail(items, false)| && '\0' !in w
  {
    hide InLanguage, IsValidEscape;
    if items == [] {
      LanguageEmpty("");
      w := "";
    } else {
      var w' := LanguageIsInhabited(items[1..]);
      w := [Sample(items[0].atom)] + w';
      assert IsAtom(items[0].atom);
      SampleMatches(items[0].atom);
      assert w[1..] == w' && w[..1] == [Sample(items[0].atom)];
      assert ItemMatches(items[0], w[..1]);
      LanguageCons(items[0], items[1..], w, 1);
      assert [items[0]] + items[1..] == items;
    }
  }

  lemma {:induction false} EndsAsItsLastItem(items: seq<Item>, w: string)
    requires items != [] && items[|items| - 1] == Item(Escaped('$'), Once) && InLanguage(items, w)
    ensures w != [] && w[|w| - 1] == '$'
    decreases |items|
  {
    var k := LanguageUncons(items, w);
    if |items| == 1 {
      LanguageEmpty(w[k..]);
      assert w == w[..k];
      assert Matches(items[0].atom, w[0]);
    } else {
      EndsAsItsLastItem(items[1..], w[k..]);
    }
  }

  /** What FullMatch can be given: a string in memory. */
  predicate IsCText(str: string) { '\0' !in str && |str| < SIZE_MAX }

  /** Full matching is membership of the whole text for every text exactly when the pattern does not end in an escaped '$'. */
  lemma FullMatchIsMembershipIff(p: Pattern)
    requires IsPattern(p) && IsCText(Print(p))
    ensures (forall str | IsCText(str) :: FullyMatches(p, str) <==> InLanguage(p.items, str)) <==> !EndsInEscapedDollar(p)
  {
    hide InLanguage;
    if EndsInEscapedDollar(p) {
      LastIsLonger(p);
      var w := LanguageIsInhabited(p.items);
      var str := w + "x";
      assert str[..|w|] == w;
      assert FullyMatches(p, str) && IsCText(str);
      if InLanguage(p.items, str) { EndsAsItsLastItem(p.items, str); }
    }
  }

  /** An escaped character takes two characters of the pattern's text, so a text of the language and one more fit in its size. */
  lemma LastIsLonger(p: Pattern)
    requires IsPattern(p) && EndsInEscapedDollar(p)
    ensures |p.items| + 1 <= |Print(p)| && (IsCText(Print(p)) ==> '\0' !in PrintTail(p.items, false))
  {
    TailIsLonger(p.items);
  }

  lemma {:induction false} TailIsLonger(items: seq<Item>)
    requires items != [] && items[|items| - 1].atom.Escaped?
    ensures |items| + 1 <= |PrintTail(items, false)|
    decreases |items|
  {
    if |items| > 1 { TailIsLonger(items[1..]); }
  }

  // ---------------------------------------------------------------- the laws of the language

  /** One item: each kind of repetition, unrolled. */
  lemma RepeatLaws(a: Atom, w: string)
    ensures ItemMatches(Item(a, Once), w) <==> |w| == 1 && Matches(a, w[0])
    ensures ItemMatches(Item(a, Optional), w) <==> w == [] || (|w| == 1 && Matches(a, w[0]))
    ensures ItemMatches(Item(a, Star), w) <==> w == [] || (Matches(a, w[0]) && ItemMatches(Item(a, Star), w[1..]))
    ensures ItemMatches(Item(a, Plus), w) <==> w != [] && Matches(a, w[0]) && ItemMatches(Item(a, Star), w[1..])
  {
    hide Matches;
    if w != [] {
      assert forall k | 1 <= k < |w| :: w[k] == w[1..][k - 1];
    }
  }

  lemma OneItem(item: Item, w: string)
    ensures InLanguage([item], w) <==> ItemMatches(item, w)
  {
    hide ItemMatches;
    if InLanguage([item], w) {
      var k := LanguageUncons([item], w);
      LanguageEmpty(w[k..]);
      assert w[..k] == w;
    }
    if ItemMatches(item, w) {
      LanguageEmpty(w[|w|..]);
      assert w[..|w|] == w && [item] + [] == [item];
      LanguageCons(item, [], w, |w|);
    }
  }

  ghost predicate SplitsAt(xs: seq<Item>, ys: seq<Item>, w: string, k: nat) {
    k <= |w| && InLanguage(xs, w[..k]) && InLanguage(ys, w[k..])
  }

  /** Items one behind the other match texts one behind the other. */
  lemma {:induction false} ConcatLaw(xs: seq<Item>, ys: seq<Item>, w: string)
    ensures InLanguage(xs + ys, w) <==> exists k: nat :: SplitsAt(xs, ys, w, k)
    decreases |xs|
  {
    hide InLanguage, ItemMatches;
    if xs == [] {
      assert [] + ys == ys && w[0..] == w;
      forall k: nat | k <= |w| ensures InLanguage([], w[..k]) <==> k == 0 { LanguageEmpty(w[..k]); }
      assert SplitsAt([], ys, w, 0) <==> InLanguage(ys, w);
    } else {
      var x, rest := xs[0], xs[1..];
      assert (xs + ys)[1..] == rest + ys && xs + ys == [x] + (rest + ys) && xs == [x] + rest;
      if InLanguage(xs + ys, w) {
        var k := LanguageUncons(xs + ys, w);
        ConcatLaw(rest, ys, w[k..]);
        var j: nat :| SplitsAt(rest, ys, w[k..], j);
        assert w[..k + j][..k] == w[..k] && w[..k + j][k..] == w[k..][..j] && w[k + j..] == w[k..][j..];
        LanguageCons(x, rest, w[..k + j], k);
        assert SplitsAt(xs, ys, w, k + j);
      }
      forall n: nat | SplitsAt(xs, ys, w, n) ensures InLanguage(xs + ys, w) {
        var k := LanguageUncons(xs, w[..n]);
        assert w[..n][..k] == w[..k] && w[..n][k..] == w[k..][..n - k] && w[n..] == w[k..][n - k..];
        ConcatLaw(rest, ys, w[k..]);
        assert SplitsAt(rest, ys, w[k..], n - k);
        LanguageCons(x, rest + ys, w, k);
      }
    }
  }

  /** Plain characters, each once and none of them the dot. */
  predicate AreLiteral(items: seq<Item>) {
    forall k | 0 <= k < |items| :: items[k].atom.Plain? && items[k].atom.c != '.' && items[k].repeat == Once
  }

  /** Literal text stands for itself. */
  lemma {:induction false} LiteralLaw(items: seq<Item>, w: string)
    requires AreLiteral(items)
    ensures InLanguage(items, w) <==> w == PrintTail(items, false)
    decreases |items|
  {
    hide InLanguage, ItemMatches, Matches;
    if items == [] {
      LanguageEmpty(w);
    } else {
      var x, rest := items[0], items[1..];
      assert items == [x] + rest;
      if InLanguage(items, w) {
        var k := LanguageUncons(items, w);
        LiteralItem(x, w[..k]);
        LiteralLaw(rest, w[k..]);
        assert w == w[..k] + w[k..];
      }
      if w == PrintTail(items, false) {
        assert w[..1] == [x.atom.c] && w[1..] == PrintTail(rest, false);
        LiteralItem(x, w[..1]);
        LiteralLaw(rest, w[1..]);
        LanguageCons(x, rest, w, 1);
      }
    }
  }

  lemma LiteralItem(item: Item, w: string)
    requires item.atom.Plain? && item.atom.c != '.' && item.repeat == Once
    ensures ItemMatches(item, w) <==> w == [item.atom.c]
  {
  }

  ghost predicate FoundBetween(p: Pattern, str: string, before: string, w: string, after: string) {
    && str == before + w + after && InLanguage(p.items, w)
    && (p.start ==> before == []) && (p.end ==> after == [])
  }

  /** What is searched for stands somewhere in the text, at its start under '^' and at its end under '$'. */
  lemma FindsIffBetween(p: Pattern, str: string)
    ensures Finds(p, str) <==> exists before, w, after :: FoundBetween(p, str, before, w, after)
  {
    hide InLanguage;
    if Finds(p, str) {
      var i: nat, j: nat :| i <= j <= |str| && InLanguage(p.items, str[i..j]) && (p.start ==> i == 0) && (p.end ==> j == |str|);
      assert str == str[..i] + str[i..j] + str[j..];
      assert FoundBetween(p, str, str[..i], str[i..j], str[j..]);
    }
    forall before, w, after | FoundBetween(p, str, before, w, after) ensures Finds(p, str) {
      assert str[|before|..|before| + |w|] == w;
    }
  }

  /** A literal pattern is found exactly in the texts that contain it. */
  lemma LiteralSearch(items: seq<Item>, str: string)
    requires AreLiteral(items)
    ensures Finds(Pattern(false, items, false), str) <==>
              exists before, after :: str == before + PrintTail(items, false) + after
  {
    hide InLanguage, Finds;
    var p, text := Pattern(false, items, false), PrintTail(items, false);
    FindsIffBetween(p, str);
    if before, w, after :| FoundBetween(p, str, before, w, after) {
      LiteralLaw(items, w);
      assert str == before + text + after;
    }
    if before, after :| str == before + text + after {
      LiteralLaw(items, text);
      assert FoundBetween(p, str, before, text, after);
    }
  }
}
