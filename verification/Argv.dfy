/** Command line flags: what one argument means, and the loop that takes the recognised ones out of argv. */
module Argv {
  import opened CText
  import opened Numbers

  // ---------------------------------------------------------------- one argument

  datatype Kind = BoolFlag | Int32Flag | StringFlag

  datatype Value = Bool(b: bool) | Number(n: int) | Text(s: string)

  datatype Setting = Setting(flag: Flag, value: Value)

  datatype Flag =
    | AlsoRunDisabledTests | BreakOnFailure | CatchExceptions | Color | DeathTestStyle | DeathTestUseFork
    | Filter | InternalRunDeathTest | ListTests | Output | PrintTime | RandomSeed
    | Repeat | Shuffle | StackTraceDepth | StreamResultTo | ThrowOnFailure
  {
    function Name(): (s: string)
      ensures '=' !in s
    {
      match this
      case AlsoRunDisabledTests => "also_run_disabled_tests"
      case BreakOnFailure => "break_on_failure"
      case CatchExceptions => "catch_exceptions"
      case Color => "color"
      case DeathTestStyle => "death_test_style"
      case DeathTestUseFork => "death_test_use_fork"
      case Filter => "filter"
      case InternalRunDeathTest => "internal_run_death_test"
      case ListTests => "list_tests"
      case Output => "output"
      case PrintTime => "print_time"
      case RandomSeed => "random_seed"
      case Repeat => "repeat"
      case Shuffle => "shuffle"
      case StackTraceDepth => "stack_trace_depth"
      case StreamResultTo => "stream_result_to"
      case ThrowOnFailure => "throw_on_failure"
    }

    function Kind(): Kind {
      match this
      case Color | DeathTestStyle | Filter | InternalRunDeathTest | Output | StreamResultTo => StringFlag
      case RandomSeed | Repeat | StackTraceDepth => Int32Flag
      case _ => BoolFlag
    }
  }

  function FlagPrefix(): string { "--gtest_" }

  /** The flags, in the order they are tried. */
  function FlagTable(): seq<Flag> {
    [ AlsoRunDisabledTests, BreakOnFailure, CatchExceptions, Color, DeathTestStyle, DeathTestUseFork,
      Filter, InternalRunDeathTest, ListTests, Output, PrintTime, RandomSeed,
      Repeat, Shuffle, StackTraceDepth, StreamResultTo, ThrowOnFailure ]
  }

  function ParseFlagValue(str: string, flag: string, defOptional: bool): Option<string> {
    var flagStr := FlagPrefix() + flag;
    if !(flagStr <= str) then None
    else
      var flagEnd := str[|flagStr|..];
      if defOptional && flagEnd == [] then Some([])
      else if flagEnd == [] || flagEnd[0] != '=' then None
      else Some(flagEnd[1..])
  }

  function ParseFlag(str: string, flag: Flag): Option<Value> {
    match ParseFlagValue(str, flag.Name(), flag.Kind() == BoolFlag)
    case None => None
    case Some(value) =>
      match flag.Kind()
      case BoolFlag => Some(Bool(!(value != [] && value[0] in {'0', 'f', 'F'})))
      case Int32Flag => (match ParseInt32(value) case None => None case Some(n) => Some(Number(n)))
      case StringFlag => Some(Text(value))
  }

  /** The first flag of the table that the argument sets. */
  function FirstMatch(str: string, table: seq<Flag>): Option<Setting> {
    if table == [] then None
    else match ParseFlag(str, table[0])
      case Some(value) => Some(Setting(table[0], value))
      case None => FirstMatch(str, table[1..])
  }

  /** A null argument streams as "(null)". */
  function ArgString(arg: Option<string>): string { if arg == None then "(null)" else arg.value }

  function Recognised(arg: Option<string>): Option<Setting> { FirstMatch(ArgString(arg), FlagTable()) }

  function AfterDashes(str: string): Option<string> {
    if "--" <= str then Some(str[2..]) else if "-" <= str || "/" <= str then Some(str[1..]) else None
  }

  predicate HasGoogleTestFlagPrefix(str: string) {
    var rest := AfterDashes(str);
    rest.Some? && !("gtest_internal_" <= rest.value) && ("gtest_" <= rest.value || "gtest-" <= rest.value)
  }

  predicate AsksForHelp(arg: Option<string>) {
    var str := ArgString(arg);
    Recognised(arg) == None && (str == "--help" || str == "-h" || str == "-?" || str == "/?" || HasGoogleTestFlagPrefix(str))
  }

  /** The flag name an argument spells: what stands between the prefix and the first '='. */
  function SpelledName(str: string): string {
    if !(FlagPrefix() <= str) then [] else str[|FlagPrefix()|..][..IndexOf(str[|FlagPrefix()|..], '=')]
  }

  /** Only a flag the argument spells can take it. */
  lemma MatchIsSpelled(str: string, flag: string, defOptional: bool)
    requires '=' !in flag && ParseFlagValue(str, flag, defOptional).Some?
    ensures flag == SpelledName(str)
  {
    var rest := str[|FlagPrefix()|..];
    var flagStr := FlagPrefix() + flag;
    assert FlagPrefix() == flagStr[..|FlagPrefix()|] == str[..|FlagPrefix()|];
    assert rest[..|flag|] == flag;
  }

  // Length and first letter tell the names apart.
  function FlagNamed(length: nat, initial: char): Flag {
    match length
    case 5 => Color
    case 6 => if initial == 'f' then Filter else if initial == 'o' then Output else Repeat
    case 7 => Shuffle
    case 10 => if initial == 'l' then ListTests else PrintTime
    case 11 => RandomSeed
    case 16 =>
      if initial == 'b' then BreakOnFailure else if initial == 'c' then CatchExceptions
      else if initial == 'd' then DeathTestStyle else if initial == 's' then StreamResultTo else ThrowOnFailure
    case 17 => StackTraceDepth
    case 19 => DeathTestUseFork
    case _ => if initial == 'a' then AlsoRunDisabledTests else InternalRunDeathTest
  }

  lemma NameTells(flag: Flag)
    ensures flag.Name() != [] && FlagNamed(|flag.Name()|, flag.Name()[0]) == flag
  {
  }

  /** No argument sets two flags, so the order in which they are tried does not matter. */
  lemma OneFlagPerArgument(str: string, f: Flag, g: Flag)
    requires ParseFlag(str, f).Some? && ParseFlag(str, g).Some?
    ensures f == g
  {
    MatchIsSpelled(str, f.Name(), f.Kind() == BoolFlag);
    MatchIsSpelled(str, g.Name(), g.Kind() == BoolFlag);
    NameTells(f);
    NameTells(g);
  }

  lemma {:induction false} FirstMatchIff(str: string, table: seq<Flag>, flag: Flag, value: Value)
    requires flag in table
    ensures FirstMatch(str, table) == Some(Setting(flag, value)) <==> ParseFlag(str, flag) == Some(value)
  {
    hide ParseFlag;
    if ParseFlag(str, table[0]).Some? && ParseFlag(str, flag).Some? {
      OneFlagPerArgument(str, table[0], flag);
    }
    if table[0] != flag {
      FirstMatchIff(str, table[1..], flag, value);
    } else if flag in table[1..] {
      FirstMatchIff(str, table[1..], flag, value);
    } else {
      NotInTable(str, table[1..], flag);
    }
  }

  lemma {:induction false} NotInTable(str: string, table: seq<Flag>, flag: Flag)
    requires flag !in table
    ensures FirstMatch(str, table).Some? ==> FirstMatch(str, table).value.flag != flag
  {
    if table != [] {
      hide ParseFlag;
      NotInTable(str, table[1..], flag);
    }
  }

  lemma TableIsComplete(flag: Flag)
    ensures flag in FlagTable()
  {
    var t := FlagTable();
    match flag
    case AlsoRunDisabledTests => assert t[0] == flag;
    case BreakOnFailure => assert t[1] == flag;
    case CatchExceptions => assert t[2] == flag;
    case Color => assert t[3] == flag;
    case DeathTestStyle => assert t[4] == flag;
    case DeathTestUseFork => assert t[5] == flag;
    case Filter => assert t[6] == flag;
    case InternalRunDeathTest => assert t[7] == flag;
    case ListTests => assert t[8] == flag;
    case Output => assert t[9] == flag;
    case PrintTime => assert t[10] == flag;
    case RandomSeed => assert t[11] == flag;
    case Repeat => assert t[12] == flag;
    case Shuffle => assert t[13] == flag;
    case StackTraceDepth => assert t[14] == flag;
    case StreamResultTo => assert t[15] == flag;
    case ThrowOnFailure => assert t[16] == flag;
  }

  /** An argument sets a flag exactly when that flag's own parser accepts it, whichever flags are tried before. */
  lemma RecognisedIff(str: string, flag: Flag, value: Value)
    ensures Recognised(Some(str)) == Some(Setting(flag, value)) <==> ParseFlag(str, flag) == Some(value)
  {
    TableIsComplete(flag);
    hide FlagTable, FirstMatch, ParseFlag;
    FirstMatchIff(str, FlagTable(), flag, value);
  }

  function Written(flag: Flag, value: string): string { FlagPrefix() + flag.Name() + "=" + value }

  /** A flag written out is read back: any text, any 32-bit number, and both truth values. */
  lemma WrittenFlagIsRead(flag: Flag, text: string, n: int)
    ensures flag.Kind() == StringFlag ==> ParseFlag(Written(flag, text), flag) == Some(Text(text))
    ensures flag.Kind() == Int32Flag && INT_MIN <= n <= INT_MAX ==> ParseFlag(Written(flag, Streamed(n)), flag) == Some(Number(n))
    ensures flag.Kind() == BoolFlag ==> ParseFlag(FlagPrefix() + flag.Name(), flag) == Some(Bool(true))
    ensures flag.Kind() == BoolFlag ==> ParseFlag(Written(flag, "1"), flag) == Some(Bool(true))
    ensures flag.Kind() == BoolFlag ==> ParseFlag(Written(flag, "0"), flag) == Some(Bool(false))
  {
    ValueBehindName(flag.Name(), text, flag.Kind() == BoolFlag);
    ValueBehindName(flag.Name(), Streamed(n), flag.Kind() == BoolFlag);
    ValueBehindName(flag.Name(), "1", flag.Kind() == BoolFlag);
    ValueBehindName(flag.Name(), "0", flag.Kind() == BoolFlag);
    ParseInt32Reads(n);
    hide ParseFlagValue, ParseInt32, FlagPrefix, Streamed;
  }

  lemma ValueBehindName(flag: string, value: string, defOptional: bool)
    ensures ParseFlagValue(FlagPrefix() + flag + "=" + value, flag, defOptional) == Some(value)
    ensures defOptional ==> ParseFlagValue(FlagPrefix() + flag, flag, defOptional) == Some([])
  {
    hide FlagPrefix;
    var p := FlagPrefix() + flag;
    var s := p + "=" + value;
    assert s[..|p|] == p && s[|p|..] == "=" + value && ("=" + value)[1..] == value;
    assert p[|p|..] == [];
  }

  // ---------------------------------------------------------------- the loop over argv

  type Words = seq<Option<string>>

  /** The arguments that set nothing, in their order. */
  function Unrecognised(words: Words): Words {
    if words == [] then []
    else Unrecognised(words[..|words| - 1]) + (if Recognised(words[|words| - 1]) == None then [words[|words| - 1]] else [])
  }

  /** The program name is not looked at. */
  function Arguments(words: Words): Words { if words == [] then [] else words[1..] }

  function Kept(words: Words): Words { if words == [] then [] else words[..1] + Unrecognised(Arguments(words)) }

  /** The flags after the arguments have set theirs, later ones over earlier ones. */
  function Settings(words: Words, values: map<Flag, Value>): map<Flag, Value> {
    if words == [] then values
    else
      var before := Settings(words[..|words| - 1], values);
      match Recognised(words[|words| - 1])
      case None => before
      case Some(setting) => before[setting.flag := setting.value]
  }

  predicate AnyAsksForHelp(words: Words) { exists k :: 0 <= k < |words| && AsksForHelp(words[k]) }

  datatype Globals = Globals(values: map<Flag, Value>, help: bool)

  /** Null from here on. */
  predicate Ends(tail: Words) { forall k | 0 <= k < |tail| :: tail[k] == None }

  class Flags {
    var values: map<Flag, Value>
    var help: bool

    constructor (values: map<Flag, Value>)
      ensures this.values == values && !help
    {
      this.values := values;
      help := false;
    }

    function Now(): Globals
      reads this
    {
      Globals(values, help)
    }

    method Set(setting: Setting)
      modifies this
      ensures Now() == old(Now()).(values := old(values)[setting.flag := setting.value])
    {
      values := values[setting.flag := setting.value];
    }

    method AskForHelp()
      modifies this
      ensures Now() == old(Now()).(help := true)
    {
      help := true;
    }
  }

  /** Takes the element at i out and moves what follows it, with the terminator, one place down. */
  method ShiftLeft(argv: array<Option<string>>, i: nat, argc: nat, ghost line: Words, ghost end: nat)
    requires i < argc <= end < argv.Length && line == argv[..argc] && Ends(argv[argc..end + 1])
    modifies argv
    ensures argv[..argc - 1] == line[..i] + line[i + 1..]
    ensures Ends(argv[argc - 1..end + 1])
    ensures forall k | end < k < argv.Length :: argv[k] == old(argv[k])
  {
    var j := i;
    assert forall k | argc <= k <= end :: argv[k] == argv[argc..end + 1][k - argc] == None;
    while j != argc
      invariant i <= j <= argc
      invariant forall k | 0 <= k < i || j <= k < argv.Length :: argv[k] == old(argv[k])
      invariant forall k | i <= k < j :: argv[k] == old(argv[k + 1])
    {
      argv[j] := argv[j + 1];
      j := j + 1;
    }
    ghost var shifted := line[..i] + line[i + 1..];
    assert forall k | 0 <= k < argc - 1 :: argv[..argc - 1][k] == shifted[k];
    assert forall k | argc - 1 <= k <= end :: argv[k] == None;
  }

  /** Leaves the program name and the arguments it does not know, closed by null, and sets the flags the others name. */
  method ParseGoogleTestFlagsOnly(argc: nat, argv: array<Option<string>>, flags: Flags) returns (left: nat)
    requires argc < argv.Length && argv[argc] == None
    modifies argv, flags
    ensures left <= argc && argv[..left] == Kept(old(argv[..argc]))
    ensures Ends(argv[left..argc + 1])
    ensures forall k | argc < k < argv.Length :: argv[k] == old(argv[k])
    ensures flags.Now() == After(old(argv[..argc]), old(flags.Now()))
  {
    hide *;
    left := argc;
    var i := 1;
    ghost var words, start := argv[..argc], flags.Now();
    NothingReadYet(words, start);
    EndsAtNull(argv[argc..argc + 1]);
    while i < left
      invariant 1 <= i && left <= argc
      invariant Progress(words, start, i, argv[..left], flags.Now())
      invariant Ends(argv[left..argc + 1])
      invariant forall k | argc < k < argv.Length :: argv[k] == old(argv[k])
      decreases left - i
    {
      ghost var line, tail := argv[..left], argv[left..argc + 1];
      OneMoreWord(words, start, i, line, flags.Now());
      assert argv[i] == line[i];
      var recognised := Consider(argv[i], flags);
      assert argv[..left] == line && argv[left..argc + 1] == tail;
      if recognised {
        ShiftLeft(argv, i, left, line, argc);
        left := left - 1;
        i := i - 1;
      }
      i := i + 1;
    }
    EverythingRead(words, start, i, argv[..left], flags.Now());
  }

  lemma EndsAtNull(tail: Words)
    requires |tail| == 1 && tail[0] == None
    ensures Ends(tail)
  {
  }

  /** The argument sets its flag, or asks for help, or does nothing. */
  method Consider(arg: Option<string>, flags: Flags) returns (recognised: bool)
    modifies flags
    ensures recognised <==> Recognised(arg).Some?
    ensures flags.Now() == Considered(old(flags.Now()), arg)
  {
    hide Recognised, AsksForHelp;
    var setting := Recognised(arg);
    recognised := setting.Some?;
    if setting.Some? {
      flags.Set(setting.value);
    } else if AsksForHelp(arg) {
      flags.AskForHelp();
    }
  }

  /** What one argument makes of the globals. */
  function Considered(now: Globals, arg: Option<string>): Globals {
    match Recognised(arg)
    case Some(setting) => now.(values := now.values[setting.flag := setting.value])
    case None => if AsksForHelp(arg) then now.(help := true) else now
  }

  /** What all of the arguments make of the globals. */
  function After(words: Words, start: Globals): Globals {
    Globals(Settings(Arguments(words), start.values), start.help || AnyAsksForHelp(Arguments(words)))
  }

  /** Of the line, the part before i is done with and kept; the rest is what has not been looked at. */
  ghost predicate Progress(words: Words, start: Globals, i: nat, line: Words, now: Globals) {
    if words == [] then line == [] && now == start
    else
      var n := |words| - (|line| - i);
      && 1 <= n <= |words| && i <= |line|
      && line == Kept(words[..n]) + words[n..] && |Kept(words[..n])| == i
      && now == After(words[..n], start)
  }

  lemma NothingReadYet(words: Words, start: Globals)
    ensures Progress(words, start, 1, words, start)
  {
    assert words != [] ==> words[..1][..1] == words[..1] && words[..1][1..] == [];
  }

  lemma EverythingRead(words: Words, start: Globals, i: nat, line: Words, now: Globals)
    requires Progress(words, start, i, line, now) && |line| <= i
    ensures line == Kept(words)
    ensures now == After(words, start)
  {
    assert words[..|words|] == words && words[|words|..] == [];
  }

  lemma OneMoreWord(words: Words, start: Globals, i: nat, line: Words, now: Globals)
    requires Progress(words, start, i, line, now) && i < |line|
    ensures Recognised(line[i]).Some? ==> Progress(words, start, i, line[..i] + line[i + 1..], Considered(now, line[i]))
    ensures Recognised(line[i]) == None ==> Progress(words, start, i + 1, line, Considered(now, line[i]))
  {
    hide Recognised, Considered, After, Kept;
    var n := |words| - (|line| - i);
    var done := Kept(words[..n]);
    assert line[i] == words[n] && line[..i] + line[i + 1..] == done + words[n + 1..];
    assert line == (done + [words[n]]) + words[n + 1..];
    KeptOneMore(words, n);
    ConsideredOneMore(words, n, start);
  }

  lemma KeptOneMore(words: Words, n: nat)
    requires 1 <= n < |words|
    ensures Kept(words[..n + 1]) == Kept(words[..n]) + (if Recognised(words[n]) == None then [words[n]] else [])
  {
    hide Recognised;
    var all, before := words[1..n + 1], words[1..n];
    assert Arguments(words[..n + 1]) == all && Arguments(words[..n]) == before;
    assert words[..n + 1][..1] == words[..n][..1];
    assert all[..n - 1] == before && all[n - 1] == words[n];
  }

  lemma ConsideredOneMore(words: Words, n: nat, start: Globals)
    requires 1 <= n < |words|
    ensures After(words[..n + 1], start) == Considered(After(words[..n], start), words[n])
  {
    hide Recognised, AsksForHelp, AnyAsksForHelp;
    var all, before := words[1..n + 1], words[1..n];
    assert Arguments(words[..n + 1]) == all && Arguments(words[..n]) == before;
    assert all[..n - 1] == before && all[n - 1] == words[n];
    HelpNeedsUnrecognised(words[n]);
    HelpSnoc(before, words[n]);
    assert all == before + [words[n]];
  }

  lemma HelpSnoc(words: Words, arg: Option<string>)
    ensures AnyAsksForHelp(words + [arg]) <==> AnyAsksForHelp(words) || AsksForHelp(arg)
  {
    hide AsksForHelp;
    var all := words + [arg];
    if k :| 0 <= k < |words| && AsksForHelp(words[k]) { assert all[k] == words[k]; }
    if AsksForHelp(arg) { assert all[|words|] == arg; }
  }

  lemma HelpNeedsUnrecognised(arg: Option<string>)
    ensures AsksForHelp(arg) ==> Recognised(arg) == None
  {
  }

  // ---------------------------------------------------------------- what the loop amounts to

  /** Kept words at increasing positions, which are those of all unrecognised words. */
  ghost predicate IsSelection(at: seq<nat>, words: Words, kept: Words) {
    && |at| == |kept|
    && (forall j, k | 0 <= j < k < |at| :: at[j] < at[k])
    && (forall k | 0 <= k < |at| :: at[k] < |words| && kept[k] == words[at[k]])
    && (forall j: nat | j < |words| :: j in at <==> Recognised(words[j]) == None)
  }

  /** Exactly the unrecognised arguments are left, each in its place among the others. */
  lemma {:induction false} UnrecognisedIsSelection(words: Words)
    ensures exists at :: IsSelection(at, words, Unrecognised(words))
  {
    hide Recognised;
    if words == [] {
      assert IsSelection([], words, Unrecognised(words));
    } else {
      var n := |words| - 1;
      UnrecognisedIsSelection(words[..n]);
      hide IsSelection, Unrecognised;
      var at :| IsSelection(at, words[..n], Unrecognised(words[..n]));
      SelectionSnoc(at, words, Unrecognised(words[..n]));
      KeptOrNot(words);
    }
  }

  lemma KeptOrNot(words: Words)
    requires words != []
    ensures var n := |words| - 1;
            Unrecognised(words) == if Recognised(words[n]) == None then Unrecognised(words[..n]) + [words[n]] else Unrecognised(words[..n])
  {
    hide Recognised;
  }

  lemma SelectionSnoc(at: seq<nat>, words: Words, kept: Words)
    requires words != [] && IsSelection(at, words[..|words| - 1], kept)
    ensures var n := |words| - 1;
            if Recognised(words[n]) == None then IsSelection(at + [n], words, kept + [words[n]]) else IsSelection(at, words, kept)
  {
    hide Recognised;
    var n := |words| - 1;
    forall j: nat | j < n ensures j in at <==> Recognised(words[j]) == None {
      assert words[..n][j] == words[j];
    }
    assert forall k | 0 <= k < |at| :: at[k] < n && kept[k] == words[at[k]];
    assert n !in at;
  }

  /** What is left is left again: parsing twice changes nothing the second time. */
  lemma {:induction false} ParsedTwice(words: Words, values: map<Flag, Value>)
    ensures Unrecognised(Unrecognised(words)) == Unrecognised(words) && Settings(Unrecognised(words), values) == values
  {
    hide Recognised, Unrecognised, Settings;
    if words == [] {
      NothingParsed(values);
    } else {
      var n := |words| - 1;
      ParsedTwice(words[..n], values);
      KeptOrNot(words);
      if Recognised(words[n]) == None {
        UnrecognisedSnoc(Unrecognised(words[..n]), words[n], values);
      }
    }
  }

  lemma NothingParsed(values: map<Flag, Value>)
    ensures Unrecognised([]) == [] && Settings([], values) == values
  {
  }

  lemma UnrecognisedSnoc(words: Words, word: Option<string>, values: map<Flag, Value>)
    requires Recognised(word) == None
    ensures Unrecognised(words + [word]) == Unrecognised(words) + [word] && Settings(words + [word], values) == Settings(words, values)
  {
    hide Recognised;
    assert (words + [word])[..|words|] == words;
  }

  /** A flag has the value the last argument naming it gives it, or its old one. */
  lemma {:induction false} LastSettingWins(words: Words, values: map<Flag, Value>, flag: Flag, k: nat)
    requires k < |words| && Recognised(words[k]).Some? && Recognised(words[k]).value.flag == flag
    requires forall j | k < j < |words| && Recognised(words[j]).Some? :: Recognised(words[j]).value.flag != flag
    ensures flag in Settings(words, values) && Settings(words, values)[flag] == Recognised(words[k]).value.value
  {
    hide Recognised;
    var n := |words| - 1;
    if k < n {
      assert forall j | 0 <= j < n :: words[..n][j] == words[j];
      LastSettingWins(words[..n], values, flag, k);
    }
  }

  // ---------------------------------------------------------------- values and help, by what is written

  /** A Bool flag is false exactly for values that begin with '0', 'f' or 'F'; without a value it is true. */
  lemma BoolValueIs(flag: Flag, value: string)
    requires flag.Kind() == BoolFlag
    ensures ParseFlag(Written(flag, value), flag) == Some(Bool(!("0" <= value || "f" <= value || "F" <= value)))
    ensures ParseFlag(FlagPrefix() + flag.Name(), flag) == Some(Bool(true))
  {
    ValueBehindName(flag.Name(), value, true);
    hide ParseFlagValue, FlagPrefix;
  }

  /** A number flag takes what is a 32-bit number and nothing else; a string flag takes anything; neither goes without a value. */
  lemma ValuesTaken(flag: Flag, value: string)
    ensures flag.Kind() == StringFlag ==> ParseFlag(Written(flag, value), flag) == Some(Text(value))
    ensures flag.Kind() == Int32Flag ==> (ParseFlag(Written(flag, value), flag).Some? <==> ParseInt32(value).Some?)
    ensures flag.Kind() != BoolFlag ==> ParseFlag(FlagPrefix() + flag.Name(), flag) == None
  {
    ValueBehindName(flag.Name(), value, flag.Kind() == BoolFlag);
    NoValue(flag.Name());
    hide ParseFlagValue, FlagPrefix, ParseInt32;
  }

  lemma SetByText(flag: Flag, text: string)
    requires flag.Kind() == StringFlag
    ensures Recognised(Some(Written(flag, text))) == Some(Setting(flag, Text(text)))
  {
    hide Recognised, ParseFlag, Written;
    WrittenFlagIsRead(flag, text, 0);
    RecognisedIff(Written(flag, text), flag, Text(text));
  }

  lemma SetByNumber(flag: Flag, n: int)
    requires flag.Kind() == Int32Flag && INT_MIN <= n <= INT_MAX
    ensures Recognised(Some(Written(flag, Streamed(n)))) == Some(Setting(flag, Number(n)))
  {
    hide Recognised, ParseFlag, Written, Streamed;
    WrittenFlagIsRead(flag, "", n);
    RecognisedIff(Written(flag, Streamed(n)), flag, Number(n));
  }

  lemma SetByName(flag: Flag)
    requires flag.Kind() == BoolFlag
    ensures Recognised(Some(FlagPrefix() + flag.Name())) == Some(Setting(flag, Bool(true)))
  {
    hide Recognised, ParseFlag, FlagPrefix;
    WrittenFlagIsRead(flag, "", 0);
    RecognisedIff(FlagPrefix() + flag.Name(), flag, Bool(true));
  }

  lemma Typed(value: string)
    ensures Written(Filter, value) == "--gtest_filter=" + value
    ensures Written(Repeat, value) == "--gtest_repeat=" + value && Written(RandomSeed, value) == "--gtest_random_seed=" + value
  {
    assert FlagPrefix() + "filter" + "=" == "--gtest_filter=";
    assert FlagPrefix() + "repeat" + "=" == "--gtest_repeat=";
    assert FlagPrefix() + "random_seed" + "=" == "--gtest_random_seed=";
  }

  lemma TypedName()
    ensures FlagPrefix() + Shuffle.Name() == "--gtest_shuffle"
  {
    assert FlagPrefix() + "shuffle" == "--gtest_shuffle";
  }

  /** The flags that decide which tests run, in which order and how often, as they are typed. */
  lemma RunFlagsAsTyped(n: int, text: string)
    requires INT_MIN <= n <= INT_MAX
    ensures Recognised(Some("--gtest_filter=" + text)) == Some(Setting(Filter, Text(text)))
    ensures Recognised(Some("--gtest_repeat=" + Streamed(n))) == Some(Setting(Repeat, Number(n)))
    ensures Recognised(Some("--gtest_random_seed=" + Streamed(n))) == Some(Setting(RandomSeed, Number(n)))
    ensures Recognised(Some("--gtest_shuffle")) == Some(Setting(Shuffle, Bool(true)))
  {
    hide Recognised, Written, Streamed, Flag.Name, FlagPrefix;
    Typed(text);
    Typed(Streamed(n));
    TypedName();
    SetByText(Filter, text);
    SetByNumber(Repeat, n);
    SetByNumber(RandomSeed, n);
    SetByName(Shuffle);
  }

  lemma NoValue(flag: string)
    ensures ParseFlagValue(FlagPrefix() + flag, flag, false) == None
  {
    hide FlagPrefix;
    var s := FlagPrefix() + flag;
    assert s[|s|..] == [];
  }

  /** Without the prefix nothing is a flag. */
  lemma {:induction false} NoFlagWithoutPrefix(str: string, table: seq<Flag>)
    requires !(FlagPrefix() <= str)
    ensures FirstMatch(str, table) == None
  {
    if table != [] {
      NoFlagWithoutPrefix(str, table[1..]);
      var name := table[0].Name();
      assert FlagPrefix() <= FlagPrefix() + name;
    }
  }

  /** The null pointer is no flag and asks for nothing. */
  lemma NullIsPassedOver()
    ensures Recognised(None) == None && !AsksForHelp(None)
  {
    assert FlagPrefix()[0] == '-' && ArgString(None)[0] == '(';
    NoFlagWithoutPrefix(ArgString(None), FlagTable());
    NoDashes(ArgString(None));
  }

  lemma NoDashes(str: string)
    requires str != [] && str[0] != '-' && str[0] != '/'
    ensures AfterDashes(str) == None && str != "--help" && str != "-h" && str != "-?" && str != "/?"
  {
  }

  predicate IsHelpWord(str: string) { str == "--help" || str == "-h" || str == "-?" || str == "/?" }

  lemma HelpWordIsNoFlag(str: string)
    requires IsHelpWord(str)
    ensures !(FlagPrefix() <= str)
  {
    var p := FlagPrefix();
    assert p[1] == '-' && p[2] == 'g' && |p| == 8;
  }

  /** The four help words ask for help. */
  lemma HelpWordsAsk(str: string)
    requires IsHelpWord(str)
    ensures Recognised(Some(str)) == None && AsksForHelp(Some(str))
  {
    hide FirstMatch, FlagTable, FlagPrefix, HasGoogleTestFlagPrefix;
    HelpWordIsNoFlag(str);
    NoFlagWithoutPrefix(str, FlagTable());
  }

  /** What is spelled like a flag and is none asks for help, with either separator and any of the three dashes, unless it is internal. */
  lemma UnknownFlagAsksForHelp(dashes: string, separator: string, rest: string)
    requires dashes in {"--", "-", "/"} && separator in {"_", "-"}
    ensures var str := dashes + "gtest" + separator + rest;
            Recognised(Some(str)) == None ==> (AsksForHelp(Some(str)) <==> !(separator == "_" && "internal_" <= rest))
  {
    var name := "gtest" + separator + rest;
    var str := dashes + "gtest" + separator + rest;
    assert str == dashes + name;
    assert name[0] == 'g' && str != "--help" && str != "-h" && str != "-?" && str != "/?";
    DashesSkipped(dashes, name);
    hide FirstMatch, FlagTable, AfterDashes;
    PrefixOfName(separator, rest);
  }

  lemma DashesSkipped(dashes: string, name: string)
    requires dashes in {"--", "-", "/"} && name != [] && name[0] != '-'
    ensures AfterDashes(dashes + name) == Some(name)
  {
    var str := dashes + name;
    assert str[|dashes|..] == name;
    assert dashes == "-" ==> str[1] == name[0];
    assert dashes == "/" ==> str[0] == '/';
  }

  lemma PrefixOfName(separator: string, rest: string)
    requires separator in {"_", "-"}
    ensures var name := "gtest" + separator + rest;
            && ("gtest_" <= name || "gtest-" <= name)
            && ("gtest_internal_" <= name <==> separator == "_" && "internal_" <= rest)
  {
    var front := "gtest" + separator;
    PrefixInParts("gtest", "_", separator);
    assert "gtest" + "_" == "gtest_" && "gtest" + "-" == "gtest-";
    assert "gtest_" + "internal_" == "gtest_internal_";
    assert front <= front + rest;
    PrefixInParts("gtest_", "internal_", rest);
    if "gtest_" + "internal_" <= front + rest { SameFront("gtest_", "internal_", front, rest); }
  }

  lemma PrefixInParts(front: string, a: string, b: string)
    ensures front + a <= front + b <==> a <= b
  {
    assert (front + b)[|front|..] == b;
    if a <= b { assert b == a + b[|a|..] && front + b == front + a + b[|a|..]; }
    if front + a <= front + b { assert (front + b)[..|front + a|][|front|..] == a; }
  }

  lemma SameFront(front: string, a: string, front': string, b: string)
    requires |front| == |front'| && front + a <= front' + b
    ensures front == front'
  {
    assert front == (front + a)[..|front|] == (front' + b)[..|front|];
  }
}
