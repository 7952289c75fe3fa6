/** The XML report writer's escaping, against a reader of the character data it writes. */
module Xml {
  import opened Sequences
  import opened CText

  predicate IsNormalizableWhitespace(c: char) { c as int == 0x9 || c as int == 0xA || c as int == 0xD }

  /** The value of a byte as a char: where char is signed the upper half is negative. */
  function CharValue(c: char, signed: bool): int { if signed && c as int >= 0x80 then c as int % 0x100 - 0x100 else c as int }

  predicate IsValidXmlCharacter(c: char, signed: bool) { IsNormalizableWhitespace(c) || CharValue(c, signed) >= 0x20 }

  // ---------------------------------------------------------------- the reader

  /** Where character data stands: in an attribute value between such quotes, or in the content of an element. */
  datatype Place = Attribute(quote: char) | Content

  datatype Piece = Bad | Piece(text: string, length: nat)

  predicate IsXmlChar(c: char) { IsNormalizableWhitespace(c) || c as int >= 0x20 }

  function HexValue(c: char): (v: nat) {
    if '0' <= c <= '9' then c as int - '0' as int
    else if 'A' <= c <= 'F' then c as int - 'A' as int + 10
    else if 'a' <= c <= 'f' then c as int - 'a' as int + 10
    else 16
  }

  predicate AllHex(s: string) { forall k | 0 <= k < |s| :: HexValue(s[k]) < 16 }

  function HexNumber(s: string): nat {
    if s == [] then 0 else 16 * HexNumber(s[..|s| - 1]) + HexValue(s[|s| - 1])
  }

  /** Character references in hexadecimal up to #x7F (section 4.1 of XML 1.0). */
  function CharReference(s: string): Piece {
    var n := IndexOf(s, ';');
    if 3 < n < |s| && AllHex(s[3..n]) && HexNumber(s[3..n]) < 0x80 && IsXmlChar(HexNumber(s[3..n]) as char) then
      Piece([HexNumber(s[3..n]) as char], n + 1)
    else Bad
  }

  /** The predefined entities (section 4.6), and character references. */
  function Reference(s: string): Piece {
    if "&lt;" <= s then Piece("<", 4)
    else if "&gt;" <= s then Piece(">", 4)
    else if "&amp;" <= s then Piece("&", 5)
    else if "&apos;" <= s then Piece("'", 6)
    else if "&quot;" <= s then Piece("\"", 6)
    else if "&#x" <= s then CharReference(s)
    else Bad
  }

  /** The first position of a string in another, if any. */
  function Find(s: string, t: string): (at: Option<nat>)
    requires t != []
    ensures at.Some? ==> at.value + |t| <= |s| && IsAt(s, t, at.value)
    ensures forall k: nat | k + |t| <= |s| && IsAt(s, t, k) :: at.Some? && at.value <= k
    decreases |s|
  {
    if |s| < |t| then None
    else if IsAt(s, t, 0) then Some(0)
    else
      assert forall k: nat | 0 < k && k + |t| <= |s| && IsAt(s, t, k) :: IsAt(s[1..], t, k - 1);
      match Find(s[1..], t)
      case None => None
      case Some(i) => SliceOfRest(s, i, |t|); Some(i + 1)
  }

  lemma SliceOfRest(s: string, i: nat, n: nat)
    requires i + n < |s|
    ensures s[1..][i..i + n] == s[i + 1..i + 1 + n]
  {
  }

  predicate IsAt(s: string, t: string, k: nat)
    requires k + |t| <= |s|
  {
    s[k..k + |t|] == t
  }

  function CDataStart(): (s: string)
    ensures |s| == 9
  {
    "<![CDATA["
  }

  function CDataEnd(): (s: string)
    ensures |s| == 3
  {
    "]]>"
  }

  predicate AllXml(s: string) { forall k | 0 <= k < |s| :: IsXmlChar(s[k]) }

  /** A CDATA section (section 2.7): everything up to the first end mark, as it stands, all of it XML characters. */
  function CDataSection(s: string): Piece {
    if !(CDataStart() <= s) then Bad
    else match Find(s[9..], CDataEnd())
      case None => Bad
      case Some(i) => if AllXml(s[9..][..i]) then Piece(s[9..][..i], 9 + i + 3) else Bad
  }

  /** What the text begins with.  Literal white space in an attribute reads as a space (section 3.3.3). */
  function ReadFirst(s: string, place: Place): Piece
    requires s != []
  {
    if s[0] == '&' then Reference(s)
    else if s[0] == '<' then (if place.Content? then CDataSection(s) else Bad)
    else if !IsXmlChar(s[0]) then Bad
    else if place.Attribute? then
      if s[0] == place.quote then Bad else if IsNormalizableWhitespace(s[0]) then Piece(" ", 1) else Piece([s[0]], 1)
    else if CDataEnd() <= s then Bad
    else Piece([s[0]], 1)
  }

  function Read(s: string, place: Place): Option<string>
    decreases |s|
  {
    if s == [] then Some([])
    else match ReadFirst(s, place)
      case Bad => None
      case Piece(text, n) =>
        if n == 0 || n > |s| then None
        else match Read(s[n..], place)
          case None => None
          case Some(rest) => Some(text + rest)
  }

  lemma ReadOn(piece: string, rest: string, text: string, place: Place)
    requires piece != [] && ReadFirst(piece + rest, place) == Piece(text, |piece|)
    ensures Read(piece + rest, place) == if Read(rest, place).Some? then Some(text + Read(rest, place).value) else None
  {
    hide ReadFirst;
    assert (piece + rest)[|piece|..] == rest;
  }

  /** Line ends, normalised before anything else is read (section 2.11). */
  function Lines(s: string): string
    decreases |s|
  {
    if s == [] then []
    else if s[0] == '\r' then "\n" + Lines(if |s| > 1 && s[1] == '\n' then s[2..] else s[1..])
    else [s[0]] + Lines(s[1..])
  }

  /** Tab, line feed and carriage return are the white space that an attribute folds, and with all from the space on the characters there are. */
  lemma CharsIff(c: char)
    ensures IsNormalizableWhitespace(c) <==> c in "\t\n\r"
    ensures IsXmlChar(c) <==> c in "\t\n\r" || ' ' <= c
  {
  }

  lemma HexIff(c: char)
    ensures HexValue(c) < 16 <==> c in "0123456789ABCDEFabcdef"
    ensures HexValue(c) < 16 ==> c == "0123456789ABCDEF"[HexValue(c)] || (HexValue(c) >= 10 && c == "abcdef"[HexValue(c) - 10])
  {
    if HexValue(c) < 16 {
      var v := HexValue(c);
      var at := if c >= 'a' then v + 6 else v;
      assert "0123456789ABCDEFabcdef"[at] == c;
    }
  }

  /** What the reader refuses: a '<' or its own quote in an attribute, the end mark in text, and what is no XML character anywhere. */
  lemma ReaderRefuses(rest: string, quote: char, c: char, place: Place)
    requires quote == '\'' || quote == '"'
    ensures Read("<" + rest, Attribute(quote)) == Read([quote] + rest, Attribute(quote)) == Read("]]>" + rest, Content) == None
    ensures !IsXmlChar(c) ==> Read([c] + rest, place) == None
  {
    hide CDataSection, Reference;
    assert CDataEnd() <= "]]>" + rest;
  }

  /** Literal white space in an attribute is read as a space. */
  lemma ReaderFolds(c: char, quote: char, rest: string)
    requires IsNormalizableWhitespace(c) && (quote == '\'' || quote == '"')
    ensures Read([c] + rest, Attribute(quote)) == Read([' '] + rest, Attribute(quote))
  {
    ReadOn([c], rest, " ", Attribute(quote));
    ReadOn([' '], rest, " ", Attribute(quote));
  }

  // ---------------------------------------------------------------- EscapeXml

  function UpperHex(v: nat): char
    requires v < 16
  {
    if v < 10 then ('0' as int + v) as char else ('A' as int + v - 10) as char
  }

  function FormatByte(c: char): string
    requires c as int <= 0xFF
  { [UpperHex(c as int / 16), UpperHex(c as int % 16)] }

  function EscapedChar(c: char, isAttribute: bool, signed: bool): string {
    match c
    case '<' => "&lt;"
    case '>' => "&gt;"
    case '&' => "&amp;"
    case '\'' => if isAttribute then "&apos;" else "'"
    case '"' => if isAttribute then "&quot;" else "\""
    case _ =>
      if !IsValidXmlCharacter(c, signed) then ""
      else if isAttribute && IsNormalizableWhitespace(c) then "&#x" + FormatByte(c) + ";"
      else [c]
  }

  function Escaped(str: string, isAttribute: bool, signed: bool): string {
    if str == [] then [] else EscapedChar(str[0], isAttribute, signed) + Escaped(str[1..], isAttribute, signed)
  }

  function ValidPart(str: string, signed: bool): string {
    if str == [] then []
    else (if IsValidXmlCharacter(str[0], signed) then [str[0]] else []) + ValidPart(str[1..], signed)
  }

  lemma EscapedStep(m: string, str: string, i: nat, isAttribute: bool, signed: bool)
    requires i < |str|
    ensures m + Escaped(str[i..], isAttribute, signed)
         == (m + EscapedChar(str[i], isAttribute, signed)) + Escaped(str[i + 1..], isAttribute, signed)
  {
    hide EscapedChar;
    assert str[i..][1..] == str[i + 1..];
    Associate(m, EscapedChar(str[i], isAttribute, signed), Escaped(str[i + 1..], isAttribute, signed));
  }

  lemma EscapedDone(m: string, str: string, isAttribute: bool, signed: bool)
    ensures m + Escaped(str[|str|..], isAttribute, signed) == m
  {
  }

  /** Read back, the attribute form is the valid part of the text, and so is the text form but for its line ends. */
  method EscapeXml(str: string, isAttribute: bool, signed: bool) returns (m: string)
    ensures m == Escaped(str, isAttribute, signed)
    ensures isAttribute ==> forall q | q in {'\'', '"'} :: Read(Lines(m), Attribute(q)) == Some(ValidPart(str, signed))
    ensures !isAttribute ==> Read(Lines(m), Content) == Some(Lines(ValidPart(str, signed)))
  {
    m := "";
    hide *;
    assert str[0..] == str;
    for i := 0 to |str|
      invariant m + Escaped(str[i..], isAttribute, signed) == Escaped(str, isAttribute, signed)
    {
      EscapedStep(m, str, i, isAttribute, signed);
      m := m + EscapedChar(str[i], isAttribute, signed);
    }
    EscapedDone(m, str, isAttribute, signed);
    if isAttribute {
      AttributeRoundTrip(str, signed, '\'');
      AttributeRoundTrip(str, signed, '"');
      LinesPlain(m);
    } else {
      TextRoundTrip(str, signed);
    }
  }

  method RemoveInvalidXmlCharacters(str: string, signed: bool) returns (output: string)
    ensures output == ValidPart(str, signed)
  {
    output := [];
    hide *;
    assert str[0..] == str && [] + ValidPart(str, signed) == ValidPart(str, signed);
    for i := 0 to |str|
      invariant output + ValidPart(str[i..], signed) == ValidPart(str, signed)
    {
      ValidStep(output, str, i, signed);
      if IsValidXmlCharacter(str[i], signed) {
        output := output + [str[i]];
      }
    }
    ValidDone(output, str, signed);
  }

  lemma ValidStep(output: string, str: string, i: nat, signed: bool)
    requires i < |str|
    ensures output + ValidPart(str[i..], signed)
         == (if IsValidXmlCharacter(str[i], signed) then output + [str[i]] else output) + ValidPart(str[i + 1..], signed)
  {
    hide IsValidXmlCharacter;
    assert str[i..][1..] == str[i + 1..];
    Associate(output, [str[i]], ValidPart(str[i + 1..], signed));
  }

  lemma ValidDone(output: string, str: string, signed: bool)
    ensures output + ValidPart(str[|str|..], signed) == output
  {
  }

  /** What survives is all there was exactly when nothing is invalid; where char is signed that shuts out every non-ASCII byte. */
  lemma {:induction false} ValidPartIsAllIff(str: string, signed: bool)
    ensures |ValidPart(str, signed)| <= |str|
    ensures ValidPart(str, signed) == str <==>
            forall k | 0 <= k < |str| :: IsXmlChar(str[k]) && (signed ==> str[k] as int < 0x80)
  {
    if str != [] {
      ValidPartIsAllIff(str[1..], signed);
      assert str == [str[0]] + str[1..];
      if IsValidXmlCharacter(str[0], signed) {
        assert ValidPart(str, signed)[1..] == ValidPart(str[1..], signed);
      }
    }
  }

  /** Characters that need no escape: in text all but three, in an attribute neither quotes nor white space that would be folded. */
  predicate NeedsNoEscape(c: char, isAttribute: bool, signed: bool) {
    IsValidXmlCharacter(c, signed) && c !in "<>&" && (isAttribute ==> c !in "'\"\t\n\r")
  }

  lemma EscapedIffNeeded(c: char, isAttribute: bool, signed: bool)
    ensures EscapedChar(c, isAttribute, signed) == [c] <==> NeedsNoEscape(c, isAttribute, signed)
    ensures EscapedChar(c, isAttribute, signed) == [] <==> !IsValidXmlCharacter(c, signed)
  {
    hide FormatByte;
  }

  /** Nothing is escaped without need. */
  lemma {:induction false} PlainIsKept(str: string, isAttribute: bool, signed: bool)
    requires forall k | 0 <= k < |str| :: NeedsNoEscape(str[k], isAttribute, signed)
    ensures Escaped(str, isAttribute, signed) == str
  {
    hide NeedsNoEscape, EscapedChar;
    if str != [] {
      EscapedIffNeeded(str[0], isAttribute, signed);
      PlainIsKept(str[1..], isAttribute, signed);
    }
  }

  // ---------------------------------------------------------------- reading EscapeXml's output

  /** Of a byte written as a reference, the reader makes that byte. */
  lemma ReferenceReads(c: char, isAttribute: bool, signed: bool, rest: string)
    requires IsValidXmlCharacter(c, signed) && EscapedChar(c, isAttribute, signed) != [c]
    ensures var e := EscapedChar(c, isAttribute, signed);
            e[0] == '&' && Reference(e + rest) == Piece([c], |e|)
  {
    var e := EscapedChar(c, isAttribute, signed);
    SecondLetters();
    if c == '<' {
      assert "&lt;" <= e + rest;
    } else if c == '>' {
      assert "&gt;" <= e + rest && (e + rest)[1] == 'g';
    } else if c == '&' {
      assert "&amp;" <= e + rest && (e + rest)[1] == 'a';
    } else if c == '\'' {
      assert "&apos;" <= e + rest && (e + rest)[1] == 'a' && (e + rest)[2] == 'p';
    } else if c == '"' {
      assert "&quot;" <= e + rest && (e + rest)[1] == 'q';
    } else {
      WhitespaceReference(c, rest);
    }
  }

  lemma SecondLetters()
    ensures "&lt;"[1] == 'l' && "&gt;"[1] == 'g' && "&amp;"[1] == "&apos;"[1] == 'a' && "&quot;"[1] == 'q'
    ensures "&amp;"[2] == 'm' && "&apos;"[2] == 'p'
  {
  }

  lemma WhitespaceReference(c: char, rest: string)
    requires IsNormalizableWhitespace(c)
    ensures Reference("&#x" + FormatByte(c) + ";" + rest) == Piece([c], 6)
  {
    var s := "&#x" + FormatByte(c) + ";" + rest;
    SecondLetters();
    assert "&#x" <= s && s[1] == '#';
    assert s == ("&#x" + FormatByte(c)) + [';'] + rest;
    IndexOfAppend("&#x" + FormatByte(c), ';', rest);
    BehindPrefix("&#x", FormatByte(c), ";" + rest);
    assert s == "&#x" + FormatByte(c) + (";" + rest);
    assert FormatByte(c) == [UpperHex(0), UpperHex(c as int)];
    TwoHexDigits(UpperHex(0), UpperHex(c as int));
  }

  lemma BehindPrefix(prefix: string, middle: string, rest: string)
    ensures (prefix + middle + rest)[|prefix|..|prefix| + |middle|] == middle
  {
  }

  lemma TwoHexDigits(a: char, b: char)
    ensures HexNumber([a, b]) == 16 * HexValue(a) + HexValue(b)
  {
    assert [a, b][..1] == [a] && [a][..0] == [];
    assert HexNumber([a]) == HexValue(a);
  }

  lemma NoReturnEscaped(c: char, signed: bool)
    ensures '\r' !in EscapedChar(c, true, signed)
  {
  }

  lemma PlainReads(c: char, signed: bool, quote: char, rest: string)
    requires (quote == '\'' || quote == '"') && NeedsNoEscape(c, true, signed)
    ensures ReadFirst([c] + rest, Attribute(quote)) == Piece([c], 1)
  {
    hide Reference, CDataSection;
  }

  /** Each valid byte of an attribute is read back on its own, whatever follows; the others leave nothing behind. */
  lemma AttributeChar(c: char, signed: bool, quote: char, rest: string)
    requires quote == '\'' || quote == '"'
    ensures var e := EscapedChar(c, true, signed);
            && '\r' !in e
            && if IsValidXmlCharacter(c, signed) then e != [] && ReadFirst(e + rest, Attribute(quote)) == Piece([c], |e|) else e == []
  {
    hide EscapedChar, IsValidXmlCharacter, IsNormalizableWhitespace, Reference, CDataSection;
    var e := EscapedChar(c, true, signed);
    EscapedIffNeeded(c, true, signed);
    NoReturnEscaped(c, signed);
    if e != [] && e != [c] {
      ReferenceReads(c, true, signed, rest);
    } else if e == [c] {
      PlainReads(c, signed, quote, rest);
    }
  }

  lemma OneMore(str: string, isAttribute: bool, signed: bool)
    requires str != []
    ensures Escaped(str, isAttribute, signed) == EscapedChar(str[0], isAttribute, signed) + Escaped(str[1..], isAttribute, signed)
    ensures ValidPart(str, signed)
         == if IsValidXmlCharacter(str[0], signed) then [str[0]] + ValidPart(str[1..], signed) else ValidPart(str[1..], signed)
  {
    hide EscapedChar, IsValidXmlCharacter;
  }

  lemma {:induction false} AttributeRoundTrip(str: string, signed: bool, quote: char)
    requires quote == '\'' || quote == '"'
    ensures '\r' !in Escaped(str, true, signed)
    ensures Read(Escaped(str, true, signed), Attribute(quote)) == Some(ValidPart(str, signed))
  {
    if str != [] {
      OneMore(str, true, signed);
      hide *;
      var e, rest := EscapedChar(str[0], true, signed), Escaped(str[1..], true, signed);
      AttributeRoundTrip(str[1..], signed, quote);
      AttributeChar(str[0], signed, quote, rest);
      if e != [] {
        ReadOn(e, rest, [str[0]], Attribute(quote));
      } else {
        assert e + rest == rest;
      }
    }
  }

  /** Text without carriage returns passes the normalisation unchanged. */
  lemma {:induction false} LinesBehind(plain: string, rest: string)
    requires '\r' !in plain
    ensures Lines(plain + rest) == plain + Lines(rest)
  {
    if plain == [] {
      assert plain + rest == rest;
    } else {
      LinesBehind(plain[1..], rest);
      assert (plain + rest)[1..] == plain[1..] + rest;
      assert plain == [plain[0]] + plain[1..];
    }
  }

  lemma LinesPlain(s: string)
    requires '\r' !in s
    ensures Lines(s) == s
  {
    LinesBehind(s, []);
    assert s + [] == s;
  }

  /** The same for text, where a ']' could matter but is never followed by a '>' . */
  lemma TextChar(c: char, signed: bool, rest: string)
    requires '>' !in rest
    ensures var e := EscapedChar(c, false, signed);
            && '>' !in e
            && if IsValidXmlCharacter(c, signed) then e != [] && ReadFirst(e + rest, Content) == Piece([c], |e|) else e == []
  {
    var e := EscapedChar(c, false, signed);
    if IsValidXmlCharacter(c, signed) && e != [c] {
      ReferenceReads(c, false, signed, rest);
      hide Reference;
    } else if IsValidXmlCharacter(c, signed) {
      assert '>' !in e + rest;
      assert CDataEnd()[2] == '>';
    }
  }

  lemma {:induction false} TextReadsBack(str: string, signed: bool)
    ensures '>' !in Escaped(str, false, signed)
    ensures Read(Escaped(str, false, signed), Content) == Some(ValidPart(str, signed))
  {
    if str != [] {
      OneMore(str, false, signed);
      hide *;
      var e, rest := EscapedChar(str[0], false, signed), Escaped(str[1..], false, signed);
      TextReadsBack(str[1..], signed);
      TextChar(str[0], signed, rest);
      if e != [] {
        ReadOn(e, rest, [str[0]], Content);
      } else {
        assert e + rest == rest;
      }
    }
  }

  predicate AllValid(s: string, signed: bool) { forall k | 0 <= k < |s| :: IsValidXmlCharacter(s[k], signed) }

  lemma {:induction false} ValidPartIsValid(str: string, signed: bool)
    ensures AllValid(ValidPart(str, signed), signed)
    ensures AllValid(str, signed) ==> ValidPart(str, signed) == str
    ensures Escaped(str, false, signed) == Escaped(ValidPart(str, signed), false, signed)
  {
    if str != [] {
      ValidPartIsValid(str[1..], signed);
      assert str == [str[0]] + str[1..];
      if IsValidXmlCharacter(str[0], signed) {
        assert ValidPart(str, signed)[1..] == ValidPart(str[1..], signed);
        OneMore(ValidPart(str, signed), false, signed);
      } else {
        InvalidIsDropped(str[0], signed);
      }
      OneMore(str, false, signed);
      hide Escaped, EscapedChar, IsValidXmlCharacter;
    }
  }

  lemma InvalidIsDropped(c: char, signed: bool)
    requires !IsValidXmlCharacter(c, signed)
    ensures EscapedChar(c, false, signed) == []
  {
  }

  lemma TextCharEnds(c: char, signed: bool)
    requires IsValidXmlCharacter(c, signed)
    ensures var e := EscapedChar(c, false, signed);
            e != [] && (c != '\r' ==> '\r' !in e) && (c == '\r' || c == '\n' ==> e == [c]) && (c != '\n' ==> e[0] != '\n')
  {
  }

  lemma {:induction false} AllValidLines(s: string, signed: bool)
    requires AllValid(s, signed)
    ensures AllValid(Lines(s), signed)
    decreases |s|
  {
    if s != [] {
      AllValidLines(s[1..], signed);
      if |s| > 1 { AllValidLines(s[2..], signed); }
      assert IsValidXmlCharacter('\n', signed);
      hide IsValidXmlCharacter;
    }
  }

  /** Line ends are normalised in the escaped text just as in the text itself. */
  lemma {:induction false} LinesOfEscaped(v: string, signed: bool)
    requires AllValid(v, signed)
    ensures Lines(Escaped(v, false, signed)) == Escaped(Lines(v), false, signed)
    decreases |v|
  {
    if v != [] {
      var rest := v[1..];
      TextCharEnds(v[0], signed);
      TextCharEnds('\n', signed);
      if rest != [] { TextCharEnds(rest[0], signed); }
      hide EscapedChar, IsValidXmlCharacter;
      LinesOfEscaped(rest, signed);
      if v[0] != '\r' {
        LinesBehind(EscapedChar(v[0], false, signed), Escaped(rest, false, signed));
      } else if rest != [] && rest[0] == '\n' {
        LinesOfEscaped(rest[1..], signed);
        assert v[2..] == rest[1..];
        assert Escaped(v, false, signed)[2..] == Escaped(v[2..], false, signed);
      } else {
        assert Escaped(v, false, signed)[1..] == Escaped(rest, false, signed);
      }
    }
  }

  lemma TextRoundTrip(str: string, signed: bool)
    ensures Read(Lines(Escaped(str, false, signed)), Content) == Some(Lines(ValidPart(str, signed)))
  {
    var v := ValidPart(str, signed);
    ValidPartIsValid(str, signed);
    LinesOfEscaped(v, signed);
    AllValidLines(v, signed);
    ValidPartIsValid(Lines(v), signed);
    TextReadsBack(Lines(v), signed);
  }

  // ---------------------------------------------------------------- OutputXmlCDataSection

  function CutMark(): (s: string)
    ensures |s| == 18
  {
    "]]>]]&gt;<![CDATA["
  }

  /** What follows the start mark: the data up to each end mark, which is closed, written as text, and reopened. */
  function Segments(data: string): string
    decreases |data|
  {
    match Find(data, CDataEnd())
    case None => data + CDataEnd()
    case Some(i) => data[..i] + CutMark() + Segments(data[i + 3..])
  }

  /** The section, cut wherever the end mark occurs in the data; it reads back exactly for data of XML characters. */
  method OutputXmlCDataSection(data: CString) returns (stream: string)
    ensures Read(stream, Content) == if AllXml(data) then Some(data) else None
    ensures Read(Lines(stream), Content) == if AllXml(data) then Some(Lines(data)) else None
  {
    var segment: string := data;
    stream := CDataStart();
    SectionsReadBack(data);
    hide *;
    while true
      invariant stream + Segments(segment) == CDataStart() + Segments(data)
      decreases |segment|
    {
      var next := Find(segment, CDataEnd());
      SegmentsStep(stream, segment);
      if next == None { break; }
      stream := stream + segment[..next.value] + CutMark();
      segment := segment[next.value + 3..];
    }
    stream := stream + segment + CDataEnd();
  }

  lemma SectionsReadBack(data: string)
    ensures Read(CDataStart() + Segments(data), Content) == if AllXml(data) then Some(data) else None
    ensures Read(Lines(CDataStart() + Segments(data)), Content) == if AllXml(data) then Some(Lines(data)) else None
  {
    AllXmlLines(data);
    CDataReadsBack(data);
    CDataReadsBack(Lines(data));
    LinesOfCData(data);
  }

  lemma Regroup(a: string, b: string, c: string, d: string)
    ensures a + (b + c + d) == (a + b + c) + d
    ensures a + (b + c) == a + b + c
  {
  }

  lemma SegmentsStep(stream: string, segment: string)
    ensures match Find(segment, CDataEnd())
            case None => stream + Segments(segment) == stream + segment + CDataEnd()
            case Some(i) =>
              stream + Segments(segment) == (stream + segment[..i] + CutMark()) + Segments(segment[i + 3..])
  {
    hide Find, CutMark, CDataEnd;
    match Find(segment, CDataEnd())
    case None => Regroup(stream, segment, CDataEnd(), []);
    case Some(i) => Regroup(stream, segment[..i], CutMark(), Segments(segment[i + 3..]));
  }

  /** In data without the end mark, none appears before the one written behind it. */
  lemma FindEnd(data: string, rest: string)
    requires Find(data, CDataEnd()) == None
    ensures Find(data + CDataEnd() + rest, CDataEnd()) == Some(|data|)
  {
    hide Find;
    var s := data + CDataEnd() + rest;
    assert IsAt(s, CDataEnd(), |data|);
    forall k: nat | k < |data| ensures !IsAt(s, CDataEnd(), k) {
      NotEarlier(data, rest, k);
    }
  }

  lemma NotEarlier(data: string, rest: string, k: nat)
    requires k < |data| && (k + 3 <= |data| ==> !IsAt(data, CDataEnd(), k))
    ensures !IsAt(data + CDataEnd() + rest, CDataEnd(), k)
  {
    var s := data + CDataEnd() + rest;
    assert CDataEnd()[0] == CDataEnd()[1] == ']' && CDataEnd()[2] == '>';
    if k + 3 <= |data| {
      assert s[k..k + 3] == data[k..k + 3];
    } else {
      assert s[k + 2] == CDataEnd()[k + 2 - |data|];
      assert s[k..k + 3][2] == s[k + 2];
    }
  }

  lemma BeforeFirst(data: string)
    requires Find(data, CDataEnd()).Some?
    ensures var i := Find(data, CDataEnd()).value;
            Find(data[..i], CDataEnd()) == None && data == data[..i] + CDataEnd() + data[i + 3..]
  {
    hide Find;
    var i := Find(data, CDataEnd()).value;
    forall k: nat | k + 3 <= i ensures !IsAt(data[..i], CDataEnd(), k) {
      assert data[..i][k..k + 3] == data[k..k + 3];
      assert !IsAt(data, CDataEnd(), k);
    }
  }

  lemma StartReads(t: string, i: nat)
    requires Find(t, CDataEnd()) == Some(i)
    ensures ReadFirst(CDataStart() + t, Content) == if AllXml(t[..i]) then Piece(t[..i], 12 + i) else Bad
  {
    hide Find, AllXml;
    var s := CDataStart() + t;
    assert s[0] == '<' && CDataStart() <= s && s[9..] == t;
  }

  /** One section is read as the data before its end mark. */
  lemma SectionReads(data: string, rest: string)
    requires Find(data, CDataEnd()) == None
    ensures ReadFirst(CDataStart() + data + CDataEnd() + rest, Content) == if AllXml(data) then Piece(data, 12 + |data|) else Bad
  {
    hide Find, ReadFirst, AllXml;
    FindEnd(data, rest);
    var t := data + CDataEnd() + rest;
    StartReads(t, |data|);
    assert CDataStart() + data + CDataEnd() + rest == CDataStart() + t && t[..|data|] == data;
  }

  lemma GreaterReads(rest: string)
    ensures ReadFirst("&gt;" + rest, Content) == Piece(">", 4)
  {
    SecondLetters();
    var s := "&gt;" + rest;
    assert s[0] == '&' && s[1] == 'g' && "&gt;" <= s;
  }

  lemma BracketReads(rest: string)
    requires |rest| >= 2 && !(rest[0] == ']' && rest[1] == '>')
    ensures ReadFirst("]" + rest, Content) == Piece("]", 1)
  {
    var s := "]" + rest;
    StartsWithMark(s);
    assert s[0] == ']' && s[1] == rest[0] && s[2] == rest[1];
    hide CDataEnd;
  }

  /** The end mark written as text. */
  lemma MarkReads(rest: string)
    ensures Read("]]&gt;" + rest, Content) == if Read(rest, Content).Some? then Some("]]>" + Read(rest, Content).value) else None
  {
    hide *;
    GreaterReads(rest);
    var c := "&gt;" + rest;
    assert c[0] == '&' && |c| >= 4;
    BracketReads(c);
    var b := "]" + c;
    assert b[1] == '&' && |b| >= 5;
    BracketReads(b);
    ReadOn("&gt;", rest, ">", Content);
    ReadOn("]", c, "]", Content);
    ReadOn("]", b, "]", Content);
    assert "]]&gt;" + rest == "]" + b;
    if Read(rest, Content).Some? {
      assert "]" + ("]" + (">" + Read(rest, Content).value)) == "]]>" + Read(rest, Content).value;
    }
  }

  lemma {:induction false} CDataReadsBack(data: string)
    ensures Read(CDataStart() + Segments(data), Content) == if AllXml(data) then Some(data) else None
    decreases |data|
  {
    hide Find, ReadFirst, Read, AllXml;
    match Find(data, CDataEnd())
    case None =>
      SectionReads(data, []);
      if AllXml(data) { ReadOn(CDataStart() + data + CDataEnd(), [], data, Content); }
      else { ReadBad(CDataStart() + data + CDataEnd() + [], Content); }
      ReadNothing(Content);
      assert CDataStart() + Segments(data) == CDataStart() + data + CDataEnd() + [];
      assert data + [] == data;
    case Some(i) =>
      BeforeFirst(data);
      var later := data[i + 3..];
      CDataReadsBack(later);
      var again := CDataStart() + Segments(later);
      SectionReads(data[..i], "]]&gt;" + again);
      MarkReads(again);
      AllXmlParts(data[..i], later);
      if AllXml(data[..i]) { ReadOn(CDataStart() + data[..i] + CDataEnd(), "]]&gt;" + again, data[..i], Content); }
      else { ReadBad(CDataStart() + data[..i] + CDataEnd() + ("]]&gt;" + again), Content); }
      SplitParts(data[..i], Segments(later));
      assert data[..i] + (CDataEnd() + later) == data;
  }

  lemma ReadBad(s: string, place: Place)
    requires s != [] && ReadFirst(s, place) == Bad
    ensures Read(s, place) == None
  {
  }

  lemma AllXmlParts(first: string, later: string)
    ensures AllXml(first + (CDataEnd() + later)) <==> AllXml(first) && AllXml(later)
  {
    var s := first + (CDataEnd() + later);
    assert AllXml(CDataEnd());
    assert forall k | 0 <= k < |first| :: s[k] == first[k];
    assert forall k | 0 <= k < |later| :: s[|first| + 3 + k] == later[k];
  }

  lemma ReadNothing(place: Place)
    ensures Read([], place) == Some([])
  {
  }

  lemma SplitParts(first: string, later: string)
    ensures CDataStart() + (first + CutMark() + later) == CDataStart() + first + CDataEnd() + ("]]&gt;" + (CDataStart() + later))
  {
    assert CutMark() == CDataEnd() + "]]&gt;" + CDataStart();
  }

  lemma LinesStep(s: string)
    requires s != []
    ensures s[0] != '\r' ==> Lines(s) == [s[0]] + Lines(s[1..])
    ensures s[0] == '\r' && |s| > 1 && s[1] == '\n' ==> Lines(s) == "\n" + Lines(s[2..])
    ensures s[0] == '\r' && !(|s| > 1 && s[1] == '\n') ==> Lines(s) == "\n" + Lines(s[1..])
  {
  }

  /** How much makes the first character of the normalised text. */
  function HeadLength(s: string): nat { if |s| > 1 && s[0] == '\r' && s[1] == '\n' then 2 else 1 }

  function Head(s: string): string
    requires s != []
  {
    if s[0] == '\r' then "\n" else [s[0]]
  }

  lemma LinesHead(s: string)
    requires s != []
    ensures HeadLength(s) <= |s| && Lines(s) == Head(s) + Lines(s[HeadLength(s)..])
  {
  }

  lemma HeadAppend(a: string, b: string)
    requires a != [] && (b == [] || b[0] != '\n')
    ensures HeadLength(a + b) == HeadLength(a) <= |a| && Head(a + b) == Head(a)
    ensures (a + b)[HeadLength(a)..] == a[HeadLength(a)..] + b
  {
    var k, s := HeadLength(a), a + b;
    assert s[0] == a[0] && (|a| > 1 ==> s[1] == a[1]) && (|a| == 1 && b != [] ==> s[1] == b[0]);
    hide HeadLength;
    assert s[k..] == a[k..] + b;
  }

  lemma {:induction false} LinesAppend(a: string, b: string)
    requires b == [] || b[0] != '\n'
    ensures Lines(a + b) == Lines(a) + Lines(b)
    decreases |a|
  {
    if a == [] {
      assert a + b == b;
    } else {
      LinesHead(a);
      LinesHead(a + b);
      HeadAppend(a, b);
      hide Lines, HeadLength, Head;
      var rest := a[HeadLength(a)..];
      Shorter(a);
      LinesAppend(rest, b);
      Associate(Head(a), Lines(rest), Lines(b));
    }
  }

  lemma Shorter(s: string)
    ensures HeadLength(s) > 0
  {
  }

  lemma FindStep(s: string)
    requires s != []
    ensures Find(s, CDataEnd()) == None <==> !(CDataEnd() <= s) && Find(s[1..], CDataEnd()) == None
  {
  }

  lemma EndAfterLines(s: string)
    ensures CDataEnd() <= Lines(s) <==> CDataEnd() <= s
  {
    hide Lines;
    if s != [] {
      LinesStep(s);
      if |s| > 1 {
        LinesStep(s[1..]);
        if |s| > 2 { LinesStep(s[2..]); }
      }
    }
    LinesOfNothing();
    StartsWithMark(s);
    StartsWithMark(Lines(s));
  }

  lemma LinesOfNothing()
    ensures Lines([]) == []
  {
  }

  lemma StartsWithMark(s: string)
    ensures CDataEnd() <= s <==> |s| >= 3 && s[0] == ']' && s[1] == ']' && s[2] == '>'
  {
    assert CDataEnd()[0] == CDataEnd()[1] == ']' && CDataEnd()[2] == '>';
  }

  /** Normalising line ends neither makes nor removes an end mark. */
  lemma {:induction false} LinesKeepMarks(s: string)
    ensures Find(Lines(s), CDataEnd()) == None <==> Find(s, CDataEnd()) == None
    decreases |s|
  {
    if s != [] {
      hide Find;
      FindStep(s);
      FindStep(Lines(s));
      EndAfterLines(s);
      if s[0] == '\r' && |s| > 1 && s[1] == '\n' {
        LinesKeepMarks(s[2..]);
        FindStep(s[1..]);
        assert s[1..][1..] == s[2..];
      } else {
        LinesKeepMarks(s[1..]);
      }
    }
  }

  lemma {:induction false} LinesOfSegments(data: string)
    ensures Lines(Segments(data)) == Segments(Lines(data))
    decreases |data|
  {
    hide Find, Lines;
    match Find(data, CDataEnd())
    case None =>
      LinesAppend(data, CDataEnd());
      LinesPlain(CDataEnd());
      LinesKeepMarks(data);
    case Some(i) =>
      BeforeFirst(data);
      var first, later := data[..i], data[i + 3..];
      LinesOfSegments(later);
      LinesKeepMarks(first);
      LinesAppend(first, CDataEnd() + later);
      LinesBehind(CDataEnd(), later);
      LinesAppend(first, CutMark() + Segments(later));
      LinesBehind(CutMark(), Segments(later));
      FindEnd(Lines(first), Lines(later));
      var all := Lines(first) + CDataEnd() + Lines(later);
      assert data == first + (CDataEnd() + later);
      assert Lines(data) == all;
      assert all[..|Lines(first)|] == Lines(first) && all[|Lines(first)| + 3..] == Lines(later);
      assert Segments(data) == first + (CutMark() + Segments(later));
  }

  lemma LinesOfCData(data: string)
    ensures Lines(CDataStart() + Segments(data)) == CDataStart() + Segments(Lines(data))
  {
    LinesOfSegments(data);
    LinesBehind(CDataStart(), Segments(data));
  }

  /** Exactly text without carriage returns is its own normal form: any other loses them in content. */
  lemma {:induction false} LinesIsIdentityIff(s: string)
    ensures '\r' !in Lines(s)
    ensures Lines(s) == s <==> '\r' !in s
  {
    NoReturnLeft(s);
    if '\r' !in s {
      LinesPlain(s);
    }
  }

  lemma {:induction false} NoReturnLeft(s: string)
    ensures '\r' !in Lines(s)
    decreases |s|
  {
    if s != [] {
      LinesHead(s);
      Shorter(s);
      hide Lines, HeadLength;
      NoReturnLeft(s[HeadLength(s)..]);
    }
  }

  lemma {:induction false} AllXmlLines(s: string)
    ensures AllXml(Lines(s)) <==> AllXml(s)
    decreases |s|
  {
    if s != [] {
      LinesStep(s);
      hide Lines, IsXmlChar;
      NewLinesAreXml();
      assert s == [s[0]] + s[1..];
      AllXmlCons(s[0], s[1..]);
      AllXmlLines(s[1..]);
      if s[0] == '\r' && |s| > 1 && s[1] == '\n' {
        assert s[1..] == ['\n'] + s[2..];
        AllXmlCons('\n', s[2..]);
        AllXmlLines(s[2..]);
        AllXmlCons('\n', Lines(s[2..]));
      } else {
        AllXmlCons(if s[0] == '\r' then '\n' else s[0], Lines(s[1..]));
      }
    } else {
      LinesOfNothing();
    }
  }

  lemma NewLinesAreXml()
    ensures IsXmlChar('\n') && IsXmlChar('\r')
  {
  }

  lemma AllXmlCons(c: char, s: string)
    ensures AllXml([c] + s) <==> IsXmlChar(c) && AllXml(s)
  {
    hide IsXmlChar;
    var t := [c] + s;
    assert t[0] == c && t[1..] == s;
    if AllXml(t) {
      forall k | 0 <= k < |s| ensures IsXmlChar(s[k]) { assert s[k] == t[k + 1]; }
    }
  }

  /** What the report writer hands over has been through RemoveInvalidXmlCharacters, so it always reads back. */
  lemma {:induction false} ValidPartIsXml(str: string, signed: bool)
    ensures AllXml(ValidPart(str, signed))
  {
    if str != [] {
      ValidPartIsXml(str[1..], signed);
      OneMore(str, false, signed);
      hide ValidPart;
      if IsValidXmlCharacter(str[0], signed) { AllXmlCons(str[0], ValidPart(str[1..], signed)); }
    }
  }
}
