/** How a parent process tells its death-test child, over the command line, which death test to run. */
module DeathTestFlag {
  import opened Sequences
  import opened CText
  import opened Numbers
  import opened Argv
  import Glob

  datatype InternalRunDeathTestFlag = InternalRunDeathTestFlag(file: string, line: int, index: int, writeFd: int)

  /** The result of looking at the flag: it is not there, it is bad and the process aborts, or it names a death test. */
  datatype Parse = Absent | Aborted | Parsed(flag: InternalRunDeathTestFlag)

  predicate IsInt(n: int) { INT_MIN <= n <= INT_MAX }

  // ---------------------------------------------------------------- the parent

  function InternalValue(file: string, line: int, index: int, fd: int): string {
    file + "|" + Streamed(line) + "|" + Streamed(index) + "|" + Streamed(fd)
  }

  /** The two arguments the parent adds to its own. */
  method ChildArguments(testCase: CString, test: CString, file: CString, line: int, index: int, fd: int)
    returns (filterFlag: string, internalFlag: string)
    ensures Recognised(Some(filterFlag)) == Some(Setting(Filter, Text(testCase + "." + test)))
    ensures Recognised(Some(internalFlag)) == Some(Setting(InternalRunDeathTest, Text(InternalValue(file, line, index, fd))))
  {
    hide Recognised, ParseFlag, InternalValue;
    filterFlag := Written(Filter, testCase + "." + test);
    internalFlag := Written(InternalRunDeathTest, InternalValue(file, line, index, fd));
    SetByText(Filter, testCase + "." + test);
    SetByText(InternalRunDeathTest, InternalValue(file, line, index, fd));
  }

  // ---------------------------------------------------------------- the child

  method SplitString(str: string, delimiter: char) returns (dest: seq<string>)
    ensures dest == Split(str, delimiter)
  {
    hide *;
    dest := [];
    var pos := 0;
    assert str[0..] == str;
    while true
      invariant pos <= |str| && dest + Split(str[pos..], delimiter) == Split(str, delimiter)
      decreases |str| - pos
    {
      SplitStep(str[pos..], delimiter);
      var colon := pos + IndexOf(str[pos..], delimiter);
      if colon == |str| {
        dest := dest + [str[pos..]];
        break;
      }
      assert str[pos..][colon - pos + 1..] == str[colon + 1..] && str[pos..][..colon - pos] == str[pos..colon];
      Associate(dest, [str[pos..colon]], Split(str[colon + 1..], delimiter));
      dest := dest + [str[pos..colon]];
      pos := colon + 1;
    }
  }

  method ParseInternalRunDeathTestFlag(value: CString) returns (result: Parse)
    ensures result == FlagOf(value)
  {
    if value == "" {
      return Absent;
    }
    var fields := SplitString(value, '|');
    if |fields| != 4 {
      return Aborted;
    }
    FieldsArePlain(value, '|');
    var line := ParseNaturalNumber(fields[1]);
    var index := ParseNaturalNumber(fields[2]);
    var writeFd := ParseNaturalNumber(fields[3]);
    if line == None || index == None || writeFd == None {
      return Aborted;
    }
    return Parsed(InternalRunDeathTestFlag(fields[0], line.value, index.value, writeFd.value));
  }

  lemma {:induction false} FieldsArePlain(str: CString, delimiter: char)
    ensures forall k | 0 <= k < |Split(str, delimiter)| :: '\0' !in Split(str, delimiter)[k]
    decreases |str|
  {
    var i := IndexOf(str, delimiter);
    if i < |str| { FieldsArePlain(str[i + 1..], delimiter); }
  }

  function FlagOf(value: string): Parse {
    var fields := Split(value, '|');
    if value == "" then Absent
    else if |fields| != 4 then Aborted
    else
      match (NaturalNumber(fields[1]), NaturalNumber(fields[2]), NaturalNumber(fields[3]))
      case (Some(line), Some(index), Some(fd)) => Parsed(InternalRunDeathTestFlag(fields[0], line, index, fd))
      case _ => Aborted
  }

  /** The four fields and what their numbers are. */
  ghost predicate SpelledBy(value: string, fields: seq<string>, flag: InternalRunDeathTestFlag) {
    && |fields| == 4 && value == fields[0] + "|" + fields[1] + "|" + fields[2] + "|" + fields[3]
    && (forall k | 0 <= k < 4 :: '|' !in fields[k])
    && flag.file == fields[0] && NaturalNumber(fields[1]) == Some(flag.line)
    && NaturalNumber(fields[2]) == Some(flag.index) && NaturalNumber(fields[3]) == Some(flag.writeFd)
  }

  lemma JoinOfFour(fields: seq<string>)
    requires |fields| == 4
    ensures Join(fields, '|') == fields[0] + "|" + fields[1] + "|" + fields[2] + "|" + fields[3]
  {
    assert Join([fields[3]], '|') == fields[3];
    JoinOfCons(fields[2], [fields[3]], '|');
    JoinOfCons(fields[1], [fields[2], fields[3]], '|');
    JoinOfCons(fields[0], [fields[1], fields[2], fields[3]], '|');
    assert fields == [fields[0]] + [fields[1], fields[2], fields[3]];
    Regroup(fields[0], fields[1], fields[2], fields[3]);
  }

  lemma Regroup(a: string, b: string, c: string, d: string)
    ensures a + ['|'] + (b + ['|'] + (c + ['|'] + d)) == a + "|" + b + "|" + c + "|" + d
  {
  }

  /** Only the empty value is no flag; a death test is named by four fields with a number in each of the last three, and nothing else. */
  lemma {:induction false} ParsedIff(value: string, flag: InternalRunDeathTestFlag)
    ensures FlagOf(value) == Absent <==> value == ""
    ensures FlagOf(value) == Parsed(flag) <==> exists fields :: SpelledBy(value, fields, flag)
  {
    hide NaturalNumber, Split, Join;
    var split := Split(value, '|');
    JoinOfSplit(value, '|');
    if FlagOf(value) == Parsed(flag) {
      JoinOfFour(split);
      assert SpelledBy(value, split, flag);
    }
    if fields :| SpelledBy(value, fields, flag) {
      JoinOfFour(fields);
      SplitOfJoin(fields, '|');
      assert value[|fields[0]|] == '|';
    }
  }

  // ---------------------------------------------------------------- both together

  lemma SplitOfPlain(s: string, delimiter: char)
    ensures delimiter !in s <==> Split(s, delimiter) == [s]
    ensures delimiter !in s <==> |Split(s, delimiter)| == 1
  {
    var i := IndexOf(s, delimiter);
    if i == |s| { assert s[..i] == s; } else { assert s[i] == delimiter; }
  }

  lemma ValueSplits(file: string, line: int, index: int, fd: int)
    ensures InternalValue(file, line, index, fd) != ""
    ensures Split(InternalValue(file, line, index, fd), '|') == Split(file, '|') + [Streamed(line), Streamed(index), Streamed(fd)]
  {
    hide InternalValue, Streamed, Split, IndexOf, Decimal;
    var l, i, f := Streamed(line), Streamed(index), Streamed(fd);
    StreamedIsPlain(line, '|');
    StreamedIsPlain(index, '|');
    StreamedIsPlain(fd, '|');
    SplitOfPlain(f, '|');
    SplitOfCons(i, '|', f);
    SplitOfCons(l, '|', i + ['|'] + f);
    SplitOfAppend(file, '|', l + ['|'] + (i + ['|'] + f));
    ValueNests(file, line, index, fd);
    assert Split(file, '|') + ([l] + ([i] + [f])) == Split(file, '|') + [l, i, f];
  }

  lemma ValueNests(file: string, line: int, index: int, fd: int)
    ensures InternalValue(file, line, index, fd) != ""
    ensures InternalValue(file, line, index, fd) == file + ['|'] + (Streamed(line) + ['|'] + (Streamed(index) + ['|'] + Streamed(fd)))
  {
    hide Streamed;
  }

  /** The child reads back what the parent wrote exactly when the file name has no '|' and no number is negative; else it aborts. */
  lemma {:induction false} RoundTripIff(file: string, line: int, index: int, fd: int)
    requires IsInt(line) && IsInt(index) && IsInt(fd)
    ensures FlagOf(InternalValue(file, line, index, fd)) ==
            if '|' !in file && line >= 0 && index >= 0 && fd >= 0 then Parsed(InternalRunDeathTestFlag(file, line, index, fd))
            else Aborted
  {
    hide NaturalNumber, Streamed, Split, InternalValue;
    ValueSplits(file, line, index, fd);
    SplitOfPlain(file, '|');
    StreamedReads(line);
    StreamedReads(index);
    StreamedReads(fd);
  }

  /** The whole way: in the child the two arguments are gone from argv, the filter selects the test, and the flag names the death test. */
  lemma {:induction false} ChildRunsTheDeathTest(
    own: Words, filterFlag: string, internalFlag: string, start: map<Flag, Value>,
    fullName: string, file: string, line: int, index: int, fd: int)
    requires filterFlag == Written(Filter, fullName) && internalFlag == Written(InternalRunDeathTest, InternalValue(file, line, index, fd))
    requires IsInt(line) && IsInt(index) && IsInt(fd) && line >= 0 && index >= 0 && fd >= 0 && '|' !in file
    requires Glob.IsPlainName(fullName)
    ensures var child := own + [Some(filterFlag), Some(internalFlag)];
            var flags := Settings(child, start);
            && Unrecognised(child) == Unrecognised(own)
            && Filter in flags && flags[Filter] == Text(fullName)
            && InternalRunDeathTest in flags && flags[InternalRunDeathTest].Text?
            && FlagOf(flags[InternalRunDeathTest].s) == Parsed(InternalRunDeathTestFlag(file, line, index, fd))
            && forall name :: Glob.FlagSelects(flags[Filter].s, name) <==> name == fullName
  {
    hide *;
    var child := own + [Some(filterFlag), Some(internalFlag)];
    BothAreText();
    SetByText(Filter, fullName);
    SetByText(InternalRunDeathTest, InternalValue(file, line, index, fd));
    TwoMore(own, Some(filterFlag), Some(internalFlag), start);
    RoundTripIff(file, line, index, fd);
    forall name ensures Glob.FlagSelects(fullName, name) <==> name == fullName {
      Glob.PlainNameSelectsItself(fullName, name);
    }
  }

  lemma BothAreText()
    ensures Filter.Kind() == InternalRunDeathTest.Kind() == StringFlag
  {
  }

  lemma TwoMore(own: Words, a: Option<string>, b: Option<string>, start: map<Flag, Value>)
    requires Recognised(a).Some? && Recognised(b).Some?
    ensures Unrecognised(own + [a, b]) == Unrecognised(own)
    ensures Settings(own + [a, b], start) ==
            Settings(own, start)[Recognised(a).value.flag := Recognised(a).value.value][Recognised(b).value.flag := Recognised(b).value.value]
  {
    hide Recognised;
    var all := own + [a, b];
    assert all[..|all| - 1] == own + [a] && (own + [a])[..|own|] == own;
    assert Unrecognised(own + [a]) == Unrecognised(own) + [] == Unrecognised(own);
  }
}
