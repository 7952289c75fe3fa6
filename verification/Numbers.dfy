/** Decimal numbers as text: how they are streamed, and the two parsers that read them back. */
module Numbers {
  import opened CText

  const INT_MAX := 0x7FFF_FFFF
  const INT_MIN := -0x8000_0000

  predicate IsDigit(c: char) { '0' <= c <= '9' }

  predicate AllDigits(s: string) { forall k | 0 <= k < |s| :: IsDigit(s[k]) }

  function DigitOf(n: nat): char
    requires n < 10
  {
    ('0' as int + n) as char
  }

  /** The decimal digits of n, and the number that digits denote. */
  function Decimal(n: nat): string {
    if n < 10 then [DigitOf(n)] else Decimal(n / 10) + [DigitOf(n % 10)]
  }

  function ValueOf(s: string): nat
    requires AllDigits(s)
  {
    if s == [] then 0 else 10 * ValueOf(s[..|s| - 1]) + (s[|s| - 1] as int - '0' as int)
  }

  function Streamed(n: int): string { if n < 0 then "-" + Decimal(-n) else Decimal(n) }

  lemma {:induction false} DecimalReads(n: nat)
    ensures Decimal(n) != [] && AllDigits(Decimal(n)) && ValueOf(Decimal(n)) == n
  {
    if n >= 10 {
      DecimalReads(n / 10);
      var s := Decimal(n);
      assert s[..|s| - 1] == Decimal(n / 10);
    } else {
      assert Decimal(n)[..0] == [];
    }
  }

  // ---------------------------------------------------------------- ParseInt32

  predicate IsSpace(c: char) { c == ' ' || '\t' <= c <= '\r' }

  function SkipSpaces(s: string): string { if s != [] && IsSpace(s[0]) then SkipSpaces(s[1..]) else s }

  /** The number that all of the text denotes to strtol in base ten; text without a number is one only when empty, and then zero. */
  function WholeNumber(s: string): Option<int> {
    var t := SkipSpaces(s);
    var negative := t != [] && t[0] == '-';
    var digits := if t != [] && (t[0] == '-' || t[0] == '+') then t[1..] else t;
    if s == [] then Some(0)
    else if digits != [] && AllDigits(digits) then 
      var n: int := ValueOf(digits);
      Some(if negative then -n else n)
    else None
  }

  /** With a 64-bit long: where strtol saturates the value is out of range anyway. */
  function ParseInt32(str: string): Option<int> {
    match WholeNumber(str)
    case None => None
    case Some(n) => if INT_MIN <= n <= INT_MAX then Some(n) else None
  }

  lemma NothingToSkip(s: string)
    requires s != [] && !IsSpace(s[0])
    ensures SkipSpaces(s) == s
  {
  }

  /** What is streamed is read back, exactly within 32 bits. */
  lemma ParseInt32Reads(n: int)
    ensures ParseInt32(Streamed(n)) == if INT_MIN <= n <= INT_MAX then Some(n) else None
  {
    var m := if n < 0 then -n else n;
    var digits := Decimal(m);
    DecimalReads(m);
    hide Decimal, ValueOf, SkipSpaces;
    assert IsDigit(digits[0]);
    var s := Streamed(n);
    assert !IsSpace(s[0]);
    NothingToSkip(s);
    assert n < 0 ==> s[0] == '-' && s[1..] == digits;
  }

  /** The ten digits and the six characters of white space. */
  lemma DigitIff(c: char)
    ensures IsDigit(c) <==> c in "0123456789"
    ensures IsDigit(c) ==> ValueOf([c]) < 10 && "0123456789"[ValueOf([c])] == c
    ensures IsSpace(c) <==> c in " \t\n\r\U{B}\U{C}"
  {
    if IsDigit(c) { assert "0123456789"[c as int - '0' as int] == c && [c][..0] == []; }
  }

  predicate AllSpaces(s: string) { forall k | 0 <= k < |s| :: IsSpace(s[k]) }

  lemma {:induction false} SpacesSkipped(spaces: string, s: string)
    requires AllSpaces(spaces) && (s == [] || !IsSpace(s[0]))
    ensures SkipSpaces(spaces + s) == s
  {
    if spaces == [] {
      assert spaces + s == s;
    } else {
      SpacesSkipped(spaces[1..], s);
      assert (spaces + s)[1..] == spaces[1..] + s;
    }
  }

  /** White space in front and a sign are read over. */
  lemma SignedNumber(spaces: string, sign: string, digits: string)
    requires AllSpaces(spaces) && sign in {"", "+", "-"} && digits != [] && AllDigits(digits)
    ensures var n: int := ValueOf(digits);
            WholeNumber(spaces + sign + digits) == Some(if sign == "-" then -n else n)
  {
    hide SkipSpaces, ValueOf, AllSpaces;
    assert IsDigit(digits[0]);
    var t := sign + digits;
    assert t[|sign|..] == digits && t[0] == (if sign == "" then digits[0] else sign[0]);
    SpacesSkipped(spaces, t);
    assert spaces + sign + digits == spaces + t;
  }

  /** What stands behind the digits is not read over. */
  lemma JunkBehindDigits(spaces: string, digits: string, junk: char)
    requires AllSpaces(spaces) && digits != [] && AllDigits(digits) && !IsDigit(junk)
    ensures WholeNumber(spaces + digits + [junk]) == None
  {
    hide SkipSpaces, ValueOf, AllSpaces;
    assert IsDigit(digits[0]);
    var t := digits + [junk];
    assert t[0] == digits[0] && t[|digits|] == junk;
    SpacesSkipped(spaces, t);
    assert spaces + digits + [junk] == spaces + t;
  }

  /** Without a digit there is no number, except that the empty text is zero. */
  lemma NoDigitsNoNumber(spaces: string, sign: string)
    requires AllSpaces(spaces) && sign in {"", "+", "-"}
    ensures WholeNumber(spaces + sign) == if spaces == "" && sign == "" then Some(0) else None
  {
    hide SkipSpaces, ValueOf, AllSpaces;
    SpacesSkipped(spaces, sign);
  }

  // ---------------------------------------------------------------- ParseNaturalNumber

  const ULL_RANGE := 0x1_0000_0000_0000_0000

  /** The conversion to int keeps the low 32 bits, as two's complement. */
  function ToInt(n: nat): int {
    var low := n % 0x1_0000_0000;
    if low > INT_MAX then low - 0x1_0000_0000 else low
  }

  method ParseNaturalNumber(str: CString) returns (number: Option<int>)
    ensures number == NaturalNumber(str)
  {
    if str == [] || !IsDigit(str[0]) {
      return None;
    }
    if !AllDigits(str) || ValueOf(str) >= ULL_RANGE {
      // the scan stopped before the end, or the value overflowed
      return None;
    }
    var parsed := ValueOf(str);
    var result := ToInt(parsed);
    ToIntFits(parsed);
    if (result + (if result < 0 then ULL_RANGE else 0)) == parsed {
      return Some(result);
    }
    return None;
  }

  /** Digits only; a value that an int holds, or one of the 2^31 largest of 64 bits, which comes out negative. */
  function NaturalNumber(str: string): Option<int> {
    if str == [] || !AllDigits(str) then None
    else if ValueOf(str) <= INT_MAX then Some(ValueOf(str))
    else if ULL_RANGE + INT_MIN <= ValueOf(str) < ULL_RANGE then Some(ValueOf(str) - ULL_RANGE)
    else None
  }

  lemma ToIntFits(n: nat)
    requires n < ULL_RANGE
    ensures INT_MIN <= ToInt(n) <= INT_MAX
    ensures ToInt(n) == n <==> n <= INT_MAX
    ensures ToInt(n) + ULL_RANGE == n <==> n >= ULL_RANGE + INT_MIN
    ensures n > INT_MAX && n < ULL_RANGE + INT_MIN ==> ToInt(n) != n && ToInt(n) + ULL_RANGE != n
  {
  }

  lemma {:induction false} StreamedReads(n: int)
    ensures 0 <= n <= INT_MAX ==> NaturalNumber(Streamed(n)) == Some(n)
    ensures n < 0 ==> NaturalNumber(Streamed(n)) == None
  {
    if n >= 0 {
      DecimalReads(n);
    } else {
      assert Streamed(n)[0] == '-';
    }
  }

  /** Of the unsigned numbers in decimal, those an int holds come back as they are and the 2^31 largest of 64 bits come back negative. */
  lemma {:induction false} DecimalIsAccepted(n: nat)
    ensures NaturalNumber(Decimal(n)) ==
            if n <= INT_MAX then Some(n)
            else if ULL_RANGE + INT_MIN <= n < ULL_RANGE then Some(n - ULL_RANGE)
            else None
    ensures NaturalNumber(Decimal(ULL_RANGE - 1)) == Some(-1)
  {
    DecimalReads(n);
    DecimalReads(ULL_RANGE - 1);
  }

  lemma {:induction false} StreamedIsPlain(n: int, c: char)
    requires !IsDigit(c) && c != '-'
    ensures c !in Streamed(n)
  {
    var m := if n < 0 then -n else n;
    DecimalReads(m);
  }
}
