/** Wide strings to UTF-8.  Octets and code units are kept in 32-bit words, as the code computes them. */
module Utf8 {

  type Octet = x: bv32 | x <= 0xFF

  const MAX_CODE_POINT_1: bv32 := (1 << 7) - 1
  const MAX_CODE_POINT_2: bv32 := (1 << 11) - 1
  const MAX_CODE_POINT_3: bv32 := (1 << 16) - 1
  const MAX_CODE_POINT_4: bv32 := (1 << 21) - 1

  // ---------------------------------------------------------------- a decoder by the bit layout

  predicate IsSingle(b: Octet) { b & 0x80 == 0 }
  predicate IsLead2(b: Octet) { b & 0xE0 == 0xC0 }
  predicate IsLead3(b: Octet) { b & 0xF0 == 0xE0 }
  predicate IsLead4(b: Octet) { b & 0xF8 == 0xF0 }
  predicate IsTail(b: Octet) { b & 0xC0 == 0x80 }

  function Join2(a: Octet, b: Octet): bv32 { ((a & 0x1F) << 6) | (b & 0x3F) }
  function Join3(a: Octet, b: Octet, c: Octet): bv32 { ((a & 0x0F) << 12) | ((b & 0x3F) << 6) | (c & 0x3F) }
  function Join4(a: Octet, b: Octet, c: Octet, d: Octet): bv32 {
    ((a & 0x07) << 18) | ((b & 0x3F) << 12) | ((c & 0x3F) << 6) | (d & 0x3F)
  }

  datatype Decoded = Malformed | Decoded(codePoint: bv32, length: nat)

  /** The first encoded code point: the lead octet gives the length, every further octet six bits, and the shortest form is required. */
  function DecodeFirst(s: seq<Octet>): (d: Decoded)
    ensures d.Decoded? ==> 0 < d.length <= |s|
  {
    if s == [] then Malformed
    else if IsSingle(s[0]) then Decoded(s[0], 1)
    else if IsLead2(s[0]) && |s| >= 2 && IsTail(s[1]) then Checked(Join2(s[0], s[1]), 2, 0x80)
    else if IsLead3(s[0]) && |s| >= 3 && IsTail(s[1]) && IsTail(s[2]) then Checked(Join3(s[0], s[1], s[2]), 3, 0x800)
    else if IsLead4(s[0]) && |s| >= 4 && IsTail(s[1]) && IsTail(s[2]) && IsTail(s[3]) then
      Checked(Join4(s[0], s[1], s[2], s[3]), 4, 0x1_0000)
    else Malformed
  }

  function Checked(codePoint: bv32, length: nat, least: bv32): Decoded {
    if codePoint < least then Malformed else Decoded(codePoint, length)
  }

  datatype Text = Bad | Text(codePoints: seq<bv32>)

  function Decode(s: seq<Octet>): Text
    decreases |s|
  {
    if s == [] then Text([])
    else match DecodeFirst(s)
      case Malformed => Bad
      case Decoded(c, n) =>
        match Decode(s[n..])
        case Bad => Bad
        case Text(rest) => Text([c] + rest)
  }

  // ---------------------------------------------------------------- the encoder

  /** The six lowest bits, and what remains above them: six is the only width any caller asks for. */
  method ChopLowBits(bits: bv32) returns (low: bv32, rest: bv32)
    ensures Chopped(bits, low, rest)
  {
    low := bits & ((1 << 6) - 1);
    rest := bits >> 6;
  }

  function HexDigit(x: bv32): Octet
    requires x < 16
  {
    if x < 10 then 0x30 + x else 0x41 + (x - 10)
  }

  function FormatHexInt(x: bv32): seq<Octet>
    decreases x
  {
    if x < 16 then [HexDigit(x)] else FormatHexInt(x >> 4) + [HexDigit(x & 0xF)]
  }

  /** "(Invalid Unicode 0x", then the number, then ")". */
  function InvalidUnicode(x: bv32): seq<Octet> {
    [0x28, 0x49, 0x6E, 0x76, 0x61, 0x6C, 0x69, 0x64, 0x20, 0x55, 0x6E, 0x69, 0x63, 0x6F, 0x64, 0x65, 0x20, 0x30, 0x78]
    + FormatHexInt(x) + [0x29]
  }

  method CodePointToUtf8(codePoint: bv32) returns (str: seq<Octet>)
    ensures str == Encoded(codePoint)
  {
    if codePoint > MAX_CODE_POINT_4 {
      return InvalidUnicode(codePoint);
    }
    hide Encoded, Lead, Tail, InvalidUnicode;
    if codePoint <= MAX_CODE_POINT_1 {
      Layout1(codePoint);
      // the buffer is read back as a NUL-terminated string
      return if codePoint == 0 then [] else [codePoint];
    }
    var low1, rest1 := ChopLowBits(codePoint);
    if codePoint <= MAX_CODE_POINT_2 {
      Layout2(codePoint, low1, rest1);
      return [0xC0 | rest1, 0x80 | low1];
    }
    var low2, rest2 := ChopLowBits(rest1);
    if codePoint <= MAX_CODE_POINT_3 {
      Layout3(codePoint, low1, rest1, low2, rest2);
      return [0xE0 | rest2, 0x80 | low2, 0x80 | low1];
    }
    var low3, rest3 := ChopLowBits(rest2);
    Layout4(codePoint, low1, rest1, low2, rest2, low3, rest3);
    return [0xF0 | rest3, 0x80 | low3, 0x80 | low2, 0x80 | low1];
  }

  predicate Chopped(bits: bv32, low: bv32, rest: bv32) { low == bits & 0x3F && rest == bits >> 6 }

  lemma Layout1(c: bv32)
    requires c <= 0x7F
    ensures Encoded(c) == if c == 0 then [] else [c]
  {
  }

  lemma Layout2(c: bv32, low1: bv32, rest1: bv32)
    requires 0x80 <= c <= 0x7FF && Chopped(c, low1, rest1)
    ensures 0xC0 | rest1 <= 0xFF && 0x80 | low1 <= 0xFF && Encoded(c) == [0xC0 | rest1, 0x80 | low1]
  {
  }

  lemma Layout3(c: bv32, low1: bv32, rest1: bv32, low2: bv32, rest2: bv32)
    requires 0x800 <= c <= 0xFFFF && Chopped(c, low1, rest1) && Chopped(rest1, low2, rest2)
    ensures 0xE0 | rest2 <= 0xFF && 0x80 | low2 <= 0xFF && 0x80 | low1 <= 0xFF
    ensures Encoded(c) == [0xE0 | rest2, 0x80 | low2, 0x80 | low1]
  {
    ShiftAgain(c);
    TailChopped(c, low1, rest1);
    TailChopped(c >> 6, low2, rest2);
    LeadShifted(c);
    hide Lead, Tail, Chopped;
    assert Encoded(c) == [Lead(c), Tail(c >> 6), Tail(c)];
  }

  lemma Layout4(c: bv32, low1: bv32, rest1: bv32, low2: bv32, rest2: bv32, low3: bv32, rest3: bv32)
    requires 0x1_0000 <= c <= 0x1F_FFFF && Chopped(c, low1, rest1) && Chopped(rest1, low2, rest2) && Chopped(rest2, low3, rest3)
    ensures 0xF0 | rest3 <= 0xFF && 0x80 | low3 <= 0xFF && 0x80 | low2 <= 0xFF && 0x80 | low1 <= 0xFF
    ensures Encoded(c) == [0xF0 | rest3, 0x80 | low3, 0x80 | low2, 0x80 | low1]
  {
    ShiftAgain(c);
    TailChopped(c, low1, rest1);
    TailChopped(c >> 6, low2, rest2);
    TailChopped(c >> 12, low3, rest3);
    LeadShifted(c);
    hide Lead, Tail, Chopped;
    assert Encoded(c) == [Lead(c), Tail(c >> 12), Tail(c >> 6), Tail(c)];
  }

  lemma TailChopped(bits: bv32, low: bv32, rest: bv32)
    requires Chopped(bits, low, rest)
    ensures Tail(bits) == 0x80 | low <= 0xFF
  {
  }

  lemma LeadShifted(c: bv32)
    requires 0x800 <= c <= 0x1F_FFFF
    ensures Lead(c) == (if c <= 0xFFFF then 0xE0 | (c >> 12) else 0xF0 | (c >> 18)) <= 0xFF
  {
  }

  lemma ShiftAgain(c: bv32)
    ensures (c >> 6) >> 6 == c >> 12 && ((c >> 6) >> 6) >> 6 == c >> 18
  {
  }

  function Lead(c: bv32): bv32 {
    if c <= 0x7FF then 0xC0 | (c >> 6) else if c <= 0xFFFF then 0xE0 | (c >> 12) else 0xF0 | (c >> 18)
  }

  function Tail(c: bv32): bv32 { 0x80 | (c & 0x3F) }

  /** The octets of a code point.  Code point zero yields nothing: it reads back as the end of the string. */
  function Encoded(c: bv32): seq<Octet> {
    if c > 0x1F_FFFF then InvalidUnicode(c)
    else if c == 0 then []
    else if c <= 0x7F then [c]
    else if c <= 0x7FF then (Parts2(c); [Lead(c), Tail(c)])
    else if c <= 0xFFFF then (Parts3(c); [Lead(c), Tail(c >> 6), Tail(c)])
    else (Parts4(c); [Lead(c), Tail(c >> 12), Tail(c >> 6), Tail(c)])
  }

  lemma Parts2(c: bv32)
    requires 0x80 <= c <= 0x7FF
    ensures Lead(c) <= 0xFF && Tail(c) <= 0xFF && IsTail(Tail(c))
    ensures !IsSingle(Lead(c)) && IsLead2(Lead(c)) && Join2(Lead(c), Tail(c)) == c
  {
  }

  lemma Parts3(c: bv32)
    requires 0x800 <= c <= 0xFFFF
    ensures Lead(c) <= 0xFF && Tail(c) <= 0xFF && Tail(c >> 6) <= 0xFF && IsTail(Tail(c)) && IsTail(Tail(c >> 6))
    ensures !IsSingle(Lead(c)) && !IsLead2(Lead(c)) && IsLead3(Lead(c)) && Join3(Lead(c), Tail(c >> 6), Tail(c)) == c
  {
    LeadBits(c);
    TailIsOctet(c);
    TailIsOctet(c >> 6);
    hide Lead, Tail, IsTail, IsSingle, IsLead2, IsLead3, Join3;
    JoinBits3(c);
  }

  lemma Parts4(c: bv32)
    requires 0x1_0000 <= c <= 0x1F_FFFF
    ensures Lead(c) <= 0xFF && Tail(c) <= 0xFF && Tail(c >> 6) <= 0xFF && Tail(c >> 12) <= 0xFF
    ensures IsTail(Tail(c)) && IsTail(Tail(c >> 6)) && IsTail(Tail(c >> 12))
    ensures !IsSingle(Lead(c)) && !IsLead2(Lead(c)) && !IsLead3(Lead(c)) && IsLead4(Lead(c))
    ensures Join4(Lead(c), Tail(c >> 12), Tail(c >> 6), Tail(c)) == c
  {
    LeadBits(c);
    TailIsOctet(c);
    TailIsOctet(c >> 6);
    TailIsOctet(c >> 12);
    hide Lead, Tail, IsTail, IsSingle, IsLead2, IsLead3, IsLead4, Join4;
    JoinBits4(c);
  }

  lemma TailIsOctet(c: bv32)
    ensures Tail(c) <= 0xFF && IsTail(Tail(c))
  {
  }

  lemma LeadBits(c: bv32)
    requires 0x800 <= c <= 0x1F_FFFF
    ensures Lead(c) <= 0xFF && !IsSingle(Lead(c)) && !IsLead2(Lead(c))
    ensures if c <= 0xFFFF then IsLead3(Lead(c)) else !IsLead3(Lead(c)) && IsLead4(Lead(c))
  {
  }

  lemma JoinBits3(c: bv32)
    requires 0x800 <= c <= 0xFFFF && Lead(c) <= 0xFF && Tail(c) <= 0xFF && Tail(c >> 6) <= 0xFF
    ensures Join3(Lead(c), Tail(c >> 6), Tail(c)) == c
  {
  }

  lemma JoinBits4(c: bv32)
    requires 0x1_0000 <= c <= 0x1F_FFFF && Lead(c) <= 0xFF && Tail(c) <= 0xFF && Tail(c >> 6) <= 0xFF && Tail(c >> 12) <= 0xFF
    ensures Join4(Lead(c), Tail(c >> 12), Tail(c >> 6), Tail(c)) == c
  {
  }

  // ---------------------------------------------------------------- round trips

  /** Whatever follows, the decoder reads the code point back and stops where its encoding ends. */
  lemma DecodeInvertsEncoded(c: bv32, rest: seq<Octet>)
    requires 1 <= c <= 0x1F_FFFF
    ensures DecodeFirst(Encoded(c) + rest) == Decoded(c, |Encoded(c)|)
  {
    SingleIs7Bit(c);
    hide IsSingle, IsLead2, IsLead3, IsLead4, IsTail, Join2, Join3, Join4, Lead, Tail, InvalidUnicode;
    if 0x80 <= c <= 0x7FF { Parts2(c); }
    if 0x800 <= c <= 0xFFFF { Parts3(c); }
    if 0x1_0000 <= c { Parts4(c); }
  }

  lemma SingleIs7Bit(c: bv32)
    ensures c <= 0x7F ==> IsSingle(c)
  {
  }

  /** No encoding is a prefix of another: text cut at code point borders can be cut in one way only. */
  lemma PrefixFree(c: bv32, d: bv32)
    requires 1 <= c <= 0x1F_FFFF && 1 <= d <= 0x1F_FFFF && Encoded(c) <= Encoded(d)
    ensures c == d
  {
    hide Encoded, DecodeFirst;
    DecodeInvertsEncoded(c, Encoded(d)[|Encoded(c)|..]);
    DecodeInvertsEncoded(d, []);
    assert Encoded(c) + Encoded(d)[|Encoded(c)|..] == Encoded(d) + [];
  }

  predicate IsScalarValue(c: bv32) { c <= 0x10_FFFF && !(0xD800 <= c <= 0xDFFF) }

  /** UTF8-char of section 4 of RFC 3629. */
  predicate IsUtf8Char(s: seq<Octet>) {
    || (|s| == 1 && s[0] <= 0x7F)
    || (|s| == 2 && 0xC2 <= s[0] <= 0xDF && InTail(s[1]))
    || (|s| == 3 && InTail(s[2]) &&
        (|| (s[0] == 0xE0 && 0xA0 <= s[1] <= 0xBF)
         || (0xE1 <= s[0] <= 0xEC && InTail(s[1]))
         || (s[0] == 0xED && 0x80 <= s[1] <= 0x9F)
         || (0xEE <= s[0] <= 0xEF && InTail(s[1]))))
    || (|s| == 4 && InTail(s[2]) && InTail(s[3]) &&
        (|| (s[0] == 0xF0 && 0x90 <= s[1] <= 0xBF)
         || (0xF1 <= s[0] <= 0xF3 && InTail(s[1]))
         || (s[0] == 0xF4 && 0x80 <= s[1] <= 0x8F)))
  }

  predicate InTail(b: Octet) { 0x80 <= b <= 0xBF }

  /** Up to 0x1FFFFF, a code point other than zero is written as RFC 3629 allows exactly when it is a Unicode scalar value. */
  lemma ScalarValuesAreUtf8(c: bv32)
    requires 1 <= c <= 0x1F_FFFF
    ensures IsUtf8Char(Encoded(c)) <==> IsScalarValue(c)
  {
  }

  // ---------------------------------------------------------------- whole strings

  /** The code points, each in its encoding, one after the other. */
  function EncodedAll(cs: seq<bv32>): seq<Octet> {
    if cs == [] then [] else EncodedAll(cs[..|cs| - 1]) + Encoded(cs[|cs| - 1])
  }

  predicate AllEncodable(cs: seq<bv32>) { forall k | 0 <= k < |cs| :: 1 <= cs[k] <= 0x1F_FFFF }

  lemma EncodedNone()
    ensures EncodedAll([]) == []
  {
  }

  lemma EncodedSnoc(cs: seq<bv32>, c: bv32)
    ensures EncodedAll(cs + [c]) == EncodedAll(cs) + Encoded(c)
  {
    hide Encoded;
    assert (cs + [c])[..|cs|] == cs;
  }

  lemma EncodedCons(c: bv32, cs: seq<bv32>)
    ensures EncodedAll([c] + cs) == Encoded(c) + EncodedAll(cs)
  {
    hide Encoded;
    if cs == [] {
      assert ([c] + cs)[..0] == [];
      assert EncodedAll([]) == [];
    } else {
      var init := cs[..|cs| - 1];
      EncodedCons(c, init);
      assert ([c] + cs)[..|cs|] == [c] + init;
    }
  }

  lemma EncodedNotEmpty(c: bv32)
    requires 1 <= c <= 0x1F_FFFF
    ensures Encoded(c) != []
  {
  }

  /** The decoder inverts the encoder on every text of code points 1..0x1FFFFF. */
  lemma {:induction false} DecodeInvertsEncodedAll(cs: seq<bv32>)
    requires AllEncodable(cs)
    ensures Decode(EncodedAll(cs)) == Text(cs)
  {
    hide Encoded, DecodeFirst;
    if cs != [] {
      var c, rest := cs[0], cs[1..];
      assert cs == [c] + rest;
      EncodedCons(c, rest);
      EncodedNotEmpty(c);
      DecodeInvertsEncoded(c, EncodedAll(rest));
      assert EncodedAll(cs)[|Encoded(c)|..] == EncodedAll(rest);
      DecodeInvertsEncodedAll(rest);
    }
  }

  // ---------------------------------------------------------------- UTF-16

  predicate IsHighSurrogate(u: bv32) { u & 0xFC00 == 0xD800 }
  predicate IsLowSurrogate(u: bv32) { u & 0xFC00 == 0xDC00 }

  function Combined(high: bv32, low: bv32): bv32 { (((high & 0x3FF) << 10) | (low & 0x3FF)) + 0x1_0000 }

  /** The code points of a wide string: with two-byte characters surrogate pairs combine, anything else stands for itself. */
  function WideCodePoints(units: seq<bv32>, utf16: bool): seq<bv32> {
    if units == [] then []
    else if utf16 && |units| >= 2 && IsHighSurrogate(units[0]) && IsLowSurrogate(units[1]) then
      [Combined(units[0], units[1])] + WideCodePoints(units[2..], utf16)
    else [units[0]] + WideCodePoints(units[1..], utf16)
  }

  /** A wide string without NUL; two-byte characters are 16-bit words. */
  ghost predicate IsWide(str: seq<bv32>, utf16: bool) {
    forall k | 0 <= k < |str| :: str[k] != 0 && (utf16 ==> str[k] <= 0xFFFF)
  }

  /** How many characters are looked at: -1 stands for all of them. */
  function Limit(length: nat, numChars: int): (n: nat)
    ensures numChars == -1 || numChars >= length ==> n == length
    ensures 0 <= numChars <= length ==> n == numChars
    ensures numChars < -1 ==> n == 0
  {
    if numChars == -1 || numChars > length then length else if numChars < 0 then 0 else numChars
  }

  method WideStringToUtf8(str: seq<bv32>, utf16: bool, numChars: int) returns (stream: seq<Octet>)
    requires IsWide(str, utf16)
    ensures stream == EncodedAll(WideCodePoints(str[..Limit(|str|, numChars)], utf16))
  {
    EncodedNone();
    hide *;
    var n := if numChars == -1 then |str| else numChars;
    ghost var text := str[..Limit(|str|, numChars)];
    stream := [];
    var i := 0;
    ghost var done := [];
    assert text[0..] == text;
    while i < n
      invariant 0 <= i <= |text| && (i <= n || i == 0)
      invariant stream == EncodedAll(done)
      invariant done + WideCodePoints(text[i..], utf16) == WideCodePoints(text, utf16)
      decreases n - i
    {
      var codePoint: bv32;
      if i == |str| {
        // the terminating NUL
        break;
      }
      var next := if i + 1 < |str| then str[i + 1] else 0;
      if i + 1 < n && utf16 && IsHighSurrogate(str[i]) && IsLowSurrogate(next) {
        NulIsNoSurrogate();
        codePoint := Combined(str[i], str[i + 1]);
        ReadPair(text, i);
        i := i + 1;
      } else {
        codePoint := str[i];
        ReadUnit(text, i, utf16);
      }
      i := i + 1;
      assert (done + [codePoint]) + WideCodePoints(text[i..], utf16) == done + ([codePoint] + WideCodePoints(text[i..], utf16));
      var octets := CodePointToUtf8(codePoint);
      EncodedSnoc(done, codePoint);
      stream, done := stream + octets, done + [codePoint];
    }
    assert i == |text| && text[i..] == [] && done + [] == done;
    ReadNone(utf16);
  }

  lemma ReadNone(utf16: bool)
    ensures WideCodePoints([], utf16) == []
  {
  }

  lemma ReadPair(text: seq<bv32>, i: nat)
    requires i + 1 < |text| && IsHighSurrogate(text[i]) && IsLowSurrogate(text[i + 1])
    ensures WideCodePoints(text[i..], true) == [Combined(text[i], text[i + 1])] + WideCodePoints(text[i + 2..], true)
  {
    hide Combined, IsHighSurrogate, IsLowSurrogate;
    assert text[i..][2..] == text[i + 2..];
  }

  lemma ReadUnit(text: seq<bv32>, i: nat, utf16: bool)
    requires i < |text|
    requires !(utf16 && i + 1 < |text| && IsHighSurrogate(text[i]) && IsLowSurrogate(text[i + 1]))
    ensures WideCodePoints(text[i..], utf16) == [text[i]] + WideCodePoints(text[i + 1..], utf16)
  {
    hide Combined, IsHighSurrogate, IsLowSurrogate;
    assert text[i..][1..] == text[i + 1..];
  }

  lemma NulIsNoSurrogate()
    ensures !IsLowSurrogate(0)
  {
  }

  lemma {:induction false} Utf16IsEncodable(str: seq<bv32>)
    requires IsWide(str, true)
    ensures AllEncodable(WideCodePoints(str, true))
    decreases |str|
  {
    if str != [] {
      hide Combined, IsHighSurrogate, IsLowSurrogate;
      Utf16IsEncodable(str[1..]);
      if |str| >= 2 {
        Utf16IsEncodable(str[2..]);
        CombinedInRange(str[0], str[1]);
      }
    }
  }

  lemma CombinedInRange(high: bv32, low: bv32)
    ensures 0x1_0000 <= Combined(high, low) <= 0x10_FFFF
  {
  }

  /** Two-byte wide strings, well-formed or not, read back as their code points. */
  lemma Utf16ReadsBack(str: seq<bv32>)
    requires IsWide(str, true)
    ensures Decode(EncodedAll(WideCodePoints(str, true))) == Text(WideCodePoints(str, true))
  {
    Utf16IsEncodable(str);
    DecodeInvertsEncodedAll(WideCodePoints(str, true));
  }

  /** The encoder of section 2.1 of RFC 2781. */
  function Utf16Units(c: bv32): seq<bv32> {
    if c < 0x1_0000 then [c] else [HighUnit(c - 0x1_0000), LowUnit(c - 0x1_0000)]
  }

  function HighUnit(d: bv32): bv32 { 0xD800 | (d >> 10) }

  function LowUnit(d: bv32): bv32 { 0xDC00 | (d & 0x3FF) }

  function Utf16(cs: seq<bv32>): seq<bv32> {
    if cs == [] then [] else Utf16Units(cs[0]) + Utf16(cs[1..])
  }

  lemma PairBits(c: bv32)
    requires 0x1_0000 <= c <= 0x10_FFFF
    ensures var u := Utf16Units(c);
            |u| == 2 && IsHighSurrogate(u[0]) && IsLowSurrogate(u[1]) && Combined(u[0], u[1]) == c
  {
    hide HighUnit, LowUnit, IsHighSurrogate, IsLowSurrogate, Combined;
    HighBits(c);
    LowBits(c);
    JoinPair(c);
  }

  lemma HighBits(c: bv32)
    requires 0x1_0000 <= c <= 0x10_FFFF
    ensures IsHighSurrogate(HighUnit(c - 0x1_0000))
  {
  }

  lemma LowBits(c: bv32)
    ensures IsLowSurrogate(LowUnit(c - 0x1_0000))
  {
  }

  lemma JoinPair(c: bv32)
    requires 0x1_0000 <= c <= 0x10_FFFF
    ensures Combined(HighUnit(c - 0x1_0000), LowUnit(c - 0x1_0000)) == c
  {
  }

  lemma ScalarIsNoHighSurrogate(c: bv32)
    requires IsScalarValue(c) && c < 0x1_0000
    ensures !IsHighSurrogate(c)
  {
  }

  /** Well-formed UTF-16 denotes the text it encodes, so its UTF-8 decodes to that text. */
  lemma {:induction false} Utf16RoundTrip(cs: seq<bv32>)
    requires forall k | 0 <= k < |cs| :: IsScalarValue(cs[k])
    ensures WideCodePoints(Utf16(cs), true) == cs
  {
    if cs != [] {
      hide Combined, IsHighSurrogate, IsLowSurrogate, Utf16Units;
      var c, rest := cs[0], Utf16(cs[1..]);
      Utf16RoundTrip(cs[1..]);
      var u := Utf16Units(c);
      if c < 0x1_0000 {
        UnitsOfBmp(c);
        ScalarIsNoHighSurrogate(c);
        assert (u + rest)[1..] == rest;
      } else {
        PairBits(c);
        assert (u + rest)[2..] == rest;
      }
    }
  }

  lemma UnitsOfBmp(c: bv32)
    requires c < 0x1_0000
    ensures Utf16Units(c) == [c]
  {
  }

  // ---------------------------------------------------------------- exactly which texts survive

  /** The spelled-out form is used above 0x1FFFFF and nowhere else, not from 0x110000 on as promised. */
  lemma SpelledOutIff(c: bv32)
    ensures Encoded(c) == InvalidUnicode(c) <==> c > 0x1F_FFFF
  {
  }

  function HexValue(c: Octet): bv32 { if c <= 0x39 then c - 0x30 else c - 0x41 + 10 }

  /** The number that hexadecimal digits denote. */
  function HexNumber(s: seq<Octet>): bv32 {
    if s == [] then 0 else (HexNumber(s[..|s| - 1]) << 4) | HexValue(s[|s| - 1])
  }

  lemma HexNibbles(x: bv32)
    ensures ((x >> 4) << 4) | (x & 0xF) == x && x & 0xF < 16 && (x >= 16 ==> x >> 4 < x)
    ensures (0 << 4) | x == x
  {
  }

  lemma HexDigitIs(x: bv32)
    requires x < 16
    ensures HexValue(HexDigit(x)) == x && (0x30 <= HexDigit(x) <= 0x39 || 0x41 <= HexDigit(x) <= 0x46)
  {
  }

  predicate IsHexDigit(c: Octet) { 0x30 <= c <= 0x39 || 0x41 <= c <= 0x46 }

  predicate Spells(s: seq<Octet>, x: bv32) {
    && s != [] && HexNumber(s) == x && (forall k | 0 <= k < |s| :: IsHexDigit(s[k]))
    && (x != 0 ==> s[0] != 0x30)
  }

  lemma OneDigitSpells(x: bv32)
    requires x < 16
    ensures Spells([HexDigit(x)], x)
  {
    HexDigitIs(x);
    DigitNonZero(x);
    HexNibbles(x);
    hide HexDigit, HexValue;
    HexNumberSnoc([], HexDigit(x));
    assert [] + [HexDigit(x)] == [HexDigit(x)];
  }

  lemma HexNumberSnoc(s: seq<Octet>, d: Octet)
    ensures HexNumber(s + [d]) == (HexNumber(s) << 4) | HexValue(d)
  {
    hide HexValue;
    assert (s + [d])[..|s|] == s;
  }

  lemma OneMoreDigitSpells(s: seq<Octet>, x: bv32)
    requires x >= 16 && x & 0xF < 16 && Spells(s, x >> 4)
    ensures Spells(s + [HexDigit(x & 0xF)], x)
  {
    HexDigitIs(x & 0xF);
    NibbleLeft(x);
    HexNibbles(x);
    hide HexDigit, HexValue, HexNumber;
    HexNumberSnoc(s, HexDigit(x & 0xF));
  }

  /** The spelled-out number is that of the code point, in upper-case hexadecimal digits without leading zeros. */
  lemma {:induction false} HexReads(x: bv32)
    ensures Spells(FormatHexInt(x), x)
    decreases x
  {
    hide Spells, HexDigit;
    HexNibbles(x);
    if x < 16 {
      OneDigitSpells(x);
    } else {
      HexReads(x >> 4);
      OneMoreDigitSpells(FormatHexInt(x >> 4), x);
    }
  }

  lemma DigitNonZero(x: bv32)
    requires x < 16
    ensures x != 0 ==> HexDigit(x) != 0x30
  {
  }

  lemma NibbleLeft(x: bv32)
    requires x >= 16
    ensures x >> 4 != 0
  {
  }

  predicate HasZero(s: seq<Octet>) { 0 in s }

  lemma {:induction false} HexHasNoZero(x: bv32)
    ensures !HasZero(FormatHexInt(x))
    decreases x
  {
    if x >= 16 {
      ShiftLess(x);
      HexHasNoZero(x >> 4);
      DigitNotZero(x & 0xF);
    } else {
      DigitNotZero(x);
    }
  }

  lemma ShiftLess(x: bv32)
    requires x >= 16
    ensures x >> 4 < x && x & 0xF < 16
  {
  }

  lemma DigitNotZero(x: bv32)
    requires x < 16
    ensures HexDigit(x) != 0
  {
  }

  lemma InvalidHasNoZero(c: bv32)
    ensures !HasZero(InvalidUnicode(c))
  {
    HexHasNoZero(c);
    hide FormatHexInt;
  }

  lemma PartsNotZero(c: bv32)
    ensures Tail(c) != 0 && (0x80 <= c <= 0x1F_FFFF ==> Lead(c) != 0)
  {
  }

  /** Encodings hold no zero octet: zero itself vanishes. */
  lemma EncodedHasNoZero(c: bv32)
    ensures !HasZero(Encoded(c))
  {
    InvalidHasNoZero(c);
    PartsNotZero(c);
    PartsNotZero(c >> 6);
    PartsNotZero(c >> 12);
    hide Lead, Tail, InvalidUnicode;
  }

  lemma {:induction false} EncodedAllHasNoZero(cs: seq<bv32>)
    ensures !HasZero(EncodedAll(cs))
  {
    hide Encoded;
    if cs != [] {
      EncodedAllHasNoZero(cs[..|cs| - 1]);
      EncodedHasNoZero(cs[|cs| - 1]);
    }
  }

  lemma JoinsInRange(a: Octet, b: Octet, c: Octet, d: Octet)
    ensures Join2(a, b) <= 0x7FF && Join3(a, b, c) <= 0xFFFF && Join4(a, b, c, d) <= 0x1F_FFFF
  {
  }

  lemma FirstInRange(s: seq<Octet>)
    requires DecodeFirst(s).Decoded?
    ensures DecodeFirst(s).codePoint <= 0x1F_FFFF && (DecodeFirst(s).codePoint == 0 ==> HasZero(s))
  {
    if |s| >= 4 { JoinsInRange(s[0], s[1], s[2], s[3]); }
    else if |s| == 3 { JoinsInRange(s[0], s[1], s[2], 0); }
    else if |s| == 2 { JoinsInRange(s[0], s[1], 0, 0); }
    hide IsSingle, IsLead2, IsLead3, IsLead4, IsTail, Join2, Join3, Join4;
  }

  lemma {:induction false} DecodedInRange(s: seq<Octet>)
    requires Decode(s).Text?
    ensures forall k | 0 <= k < |Decode(s).codePoints| ::
              Decode(s).codePoints[k] <= 0x1F_FFFF && (Decode(s).codePoints[k] == 0 ==> HasZero(s))
    decreases |s|
  {
    if s != [] {
      hide DecodeFirst;
      FirstInRange(s);
      DecodedInRange(s[DecodeFirst(s).length..]);
    }
  }

  /** A text reads back exactly when its code points are 1..0x1FFFFF: one zero or one greater code point anywhere breaks it. */
  lemma {:induction false} ReadsBackIff(cs: seq<bv32>)
    ensures Decode(EncodedAll(cs)) == Text(cs) <==> AllEncodable(cs)
  {
    if AllEncodable(cs) {
      DecodeInvertsEncodedAll(cs);
    }
    if Decode(EncodedAll(cs)) == Text(cs) {
      hide Decode, EncodedAll, HasZero;
      EncodedAllHasNoZero(cs);
      DecodedInRange(EncodedAll(cs));
    }
  }
}
