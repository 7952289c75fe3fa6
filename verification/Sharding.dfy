/** Selecting the tests to run: the filter flag, disabled tests, and the split over shards. */
module Sharding {
  import opened Arithmetic
  import opened CText
  import Glob
  import opened Numbers
  import opened Registry
  import opened UnitTest
  import opened Visits

  // ---------------------------------------------------------------- whether to shard

  datatype Decision = NoSharding | ShardTests | Fatal

  /** The two environment variables, if they are set. */
  datatype Environment = Environment(totalShards: Option<string>, shardIndex: Option<string>)

  /** The value of a variable, -1 when it is not set; text that is no 32-bit number ends the program. */
  function Int32FromEnvOrDie(variable: Option<string>): Option<int> {
    match variable case None => Some(-1) case Some(text) => ParseInt32(text)
  }

  predicate AreConsistent(totalShards: int, shardIndex: int) { totalShards == shardIndex == -1 || 0 <= shardIndex < totalShards }

  /** Both or neither set, and then an index among the shards; anything else, or text that is no number, ends the program. */
  function ShouldShard(env: Environment, inSubprocess: bool): (d: Decision)
    ensures var total, index := Int32FromEnvOrDie(env.totalShards), Int32FromEnvOrDie(env.shardIndex);
            && (d == ShardTests <==> !inSubprocess && total.Some? && index.Some? && 0 <= index.value < total.value && total.value > 1)
            && (d == Fatal <==> !inSubprocess && !(total.Some? && index.Some? && AreConsistent(total.value, index.value)))
  {
    if inSubprocess then NoSharding
    else
      match (Int32FromEnvOrDie(env.totalShards), Int32FromEnvOrDie(env.shardIndex))
      case (Some(totalShards), Some(shardIndex)) =>
        if totalShards == -1 && shardIndex == -1 then NoSharding
        else if totalShards == -1 && shardIndex != -1 then Fatal
        else if totalShards != -1 && shardIndex == -1 then Fatal
        else if shardIndex < 0 || shardIndex >= totalShards then Fatal
        else if totalShards > 1 then ShardTests else NoSharding
      case _ => Fatal
  }

  /** Ignore the protocol, or run the tests of one shard. */
  datatype Protocol = Ignore | Honor(totalShards: nat, shardIndex: nat)

  predicate IsProtocol(p: Protocol) { p.Honor? ==> p.shardIndex < p.totalShards }

  /** Whether the runnable test with the given number belongs here. */
  predicate Here(p: Protocol, id: nat)
    requires IsProtocol(p)
  {
    p == Ignore || id % p.totalShards == p.shardIndex
  }

  // ---------------------------------------------------------------- what runs

  /** The flags that matter to the selection. */
  datatype Options = Options(filter: CString, alsoRunDisabled: bool)

  const DISABLE_TEST_FILTER: CString := "DISABLED_*:*/DISABLED_*"

  ghost predicate Disabled(testCase: string, test: string) {
    Glob.FilterAccepts(DISABLE_TEST_FILTER, testCase) || Glob.FilterAccepts(DISABLE_TEST_FILTER, test)
  }

  ghost predicate Runnable(o: Options, testCase: string, test: string) {
    (o.alsoRunDisabled || !Disabled(testCase, test)) && Glob.FlagSelects(o.filter, testCase + "." + test)
  }

  /** A name is disabled by its own beginning, or by what follows a slash. */
  ghost predicate IsDisabledName(name: string) { "DISABLED_" <= name || Glob.Contains(name, "/DISABLED_") }

  lemma DisabledIff(testCase: string, test: string)
    ensures Disabled(testCase, test) <==> IsDisabledName(testCase) || IsDisabledName(test)
  {
    hide Glob.FilterAccepts, IsDisabledName;
    DisableFilterIff(testCase);
    DisableFilterIff(test);
  }

  lemma DisableFilterIff(name: string)
    ensures Glob.FilterAccepts(DISABLE_TEST_FILTER, name) <==> IsDisabledName(name)
  {
    var plain, slashed := "DISABLED_", "/DISABLED_";
    assert DISABLE_TEST_FILTER == (plain + "*") + ":" + ("*" + (slashed + "*"));
    assert Glob.IsPlainName(plain) && Glob.IsPlainName(slashed) && ':' !in plain + "*" && ':' !in "*" + (slashed + "*");
    hide Glob.GlobMatches, Glob.FilterAccepts, Glob.IsPlainName;
    Glob.AcceptsEither(plain + "*", "*" + (slashed + "*"), name);
    Glob.AcceptsOne(plain + "*", name);
    Glob.AcceptsOne("*" + (slashed + "*"), name);
    Glob.PrefixPattern(plain, name);
    Glob.ContainsPattern(slashed, name);
  }

  /** Asking for disabled tests too lifts that bar and no other; a full name as filter leaves that one test. */
  lemma RunnableLaws(filter: CString, testCase: string, test: string)
    ensures Runnable(Options(filter, true), testCase, test) <==> Glob.FlagSelects(filter, testCase + "." + test)
    ensures Runnable(Options(filter, false), testCase, test) <==>
              Runnable(Options(filter, true), testCase, test) && !IsDisabledName(testCase) && !IsDisabledName(test)
    ensures Glob.IsPlainName(filter) ==> (Runnable(Options(filter, true), testCase, test) <==> testCase + "." + test == filter)
  {
    hide Glob.FlagSelects, IsDisabledName, Disabled, Glob.IsPlainName;
    DisabledIff(testCase, test);
    if Glob.IsPlainName(filter) { Glob.PlainNameSelectsItself(filter, testCase + "." + test); }
  }

  /** The runnable tests among the first j of a case. */
  ghost function RunnableBefore(o: Options, testCase: string, names: seq<string>, j: nat): nat
    requires j <= |names|
  {
    if j == 0 then 0 else RunnableBefore(o, testCase, names, j - 1) + if Runnable(o, testCase, names[j - 1]) then 1 else 0
  }

  /** The number of runnable tests of the first i cases: the number the first runnable test behind them gets. */
  ghost function RunnableUpTo(o: Options, r: seq<Registration>, i: nat): nat
    requires i <= |r|
  {
    if i == 0 then 0 else RunnableUpTo(o, r, i - 1) + RunnableBefore(o, r[i - 1].name, r[i - 1].tests, |r[i - 1].tests|)
  }

  /** The runnable tests numbered below n that belong here. */
  function SelectedBelow(p: Protocol, n: nat): nat
    requires IsProtocol(p)
  {
    if n == 0 then 0 else SelectedBelow(p, n - 1) + if Here(p, n - 1) then 1 else 0
  }

  function Marked(tests: seq<TestInfo>): nat {
    if tests == [] then 0 else Marked(tests[..|tests| - 1]) + if tests[|tests| - 1].shouldRun then 1 else 0
  }

  ghost function MarkedIn(cases: seq<TestCase>): nat
    reads cases`tests
  {
    if cases == [] then 0 else MarkedIn(cases[..|cases| - 1]) + Marked(cases[|cases| - 1].tests)
  }

  /** The recorded verdict on one test, whose case's runnable tests are numbered from base on. */
  ghost predicate Judged(o: Options, p: Protocol, testCase: string, names: seq<string>, base: nat, test: TestInfo, j: nat)
    requires IsProtocol(p) && j < |names|
  {
    && test.name == names[j]
    && (test.isDisabled <==> Disabled(testCase, names[j]))
    && (test.matchesFilter <==> Glob.FlagSelects(o.filter, testCase + "." + names[j]))
    && (test.shouldRun <==> Runnable(o, testCase, names[j]) && Here(p, base + RunnableBefore(o, testCase, names, j)))
  }

  lemma JudgedIs(o: Options, p: Protocol, testCase: string, names: seq<string>, base: nat, test: TestInfo, j: nat)
    requires IsProtocol(p) && j < |names| && test.name == names[j] && (test.isDisabled <==> Disabled(testCase, names[j]))
    requires test.matchesFilter <==> Glob.FlagSelects(o.filter, testCase + "." + names[j])
    requires test.shouldRun <==> Runnable(o, testCase, names[j]) && Here(p, base + RunnableBefore(o, testCase, names, j))
    ensures Judged(o, p, testCase, names, base, test, j)
  {
  }

  method IsDisabled(testCase: CString, test: CString) returns (disabled: bool)
    ensures disabled <==> Disabled(testCase, test)
  {
    disabled := Glob.MatchesFilter(testCase, DISABLE_TEST_FILTER);
    if !disabled {
      disabled := Glob.MatchesFilter(test, DISABLE_TEST_FILTER);
    }
  }

  method JudgeTest(o: Options, testCase: CString, test: CString) returns (disabled: bool, matches: bool, runnable: bool)
    ensures disabled <==> Disabled(testCase, test)
    ensures matches <==> Glob.FlagSelects(o.filter, testCase + "." + test)
    ensures runnable <==> Runnable(o, testCase, test)
  {
    disabled := IsDisabled(testCase, test);
    matches := Glob.FilterMatchesTest(testCase, test, o.filter);
    runnable := (o.alsoRunDisabled || !disabled) && matches;
  }

  /** The inner loop over the tests of one case. */
  method FilterCase(testCase: TestCase, o: Options, p: Protocol, runnable0: nat, selected0: nat) returns (runnable: nat, selected: nat)
    requires IsProtocol(p) && selected0 == SelectedBelow(p, runnable0)
    modifies testCase`tests, testCase`shouldRun
    ensures Names(testCase.tests) == old(Names(testCase.tests))
    ensures forall j | 0 <= j < |testCase.tests| ::
              Judged(o, p, testCase.name, old(Names(testCase.tests)), runnable0, testCase.tests[j], j)
    ensures testCase.shouldRun <==> exists j :: 0 <= j < |testCase.tests| && testCase.tests[j].shouldRun
    ensures runnable == runnable0 + RunnableBefore(o, testCase.name, old(Names(testCase.tests)), |old(testCase.tests)|)
    ensures selected == SelectedBelow(p, runnable) && selected == selected0 + Marked(testCase.tests)
  {
    hide Names, Marked, Disabled, Runnable, Here, RunnableBefore, SelectedBelow, Judged;
    ghost var names := Names(testCase.tests);
    runnable, selected := runnable0, selected0;
    testCase.shouldRun := false;
    MarkedNone(testCase.tests);
    NoneBefore(o, testCase.name, names);
    for j := 0 to |testCase.tests|
      invariant |testCase.tests| == |names| && forall k | 0 <= k < |names| :: testCase.tests[k].name == names[k]
      invariant forall k | 0 <= k < j :: Judged(o, p, testCase.name, names, runnable0, testCase.tests[k], k)
      invariant testCase.shouldRun <==> exists k :: 0 <= k < j && testCase.tests[k].shouldRun
      invariant runnable == runnable0 + RunnableBefore(o, testCase.name, names, j)
      invariant selected == SelectedBelow(p, runnable) && selected == selected0 + Marked(testCase.tests[..j])
    {
      var test := testCase.tests[j];
      ghost var before := testCase.tests;
      var disabled, matches, isRunnable := JudgeTest(o, testCase.name, test.name);
      var here := p == Ignore || runnable % p.totalShards == p.shardIndex;
      var isSelected := isRunnable && here;
      HereIs(p, runnable, here);
      OneMore(o, p, testCase.name, names, j, runnable);
      JudgedIs(o, p, testCase.name, names, runnable0, test.(isDisabled := disabled, matchesFilter := matches, shouldRun := isSelected), j);
      runnable := runnable + if isRunnable then 1 else 0;
      selected := selected + if isSelected then 1 else 0;
      var test' := test.(isDisabled := disabled, matchesFilter := matches, shouldRun := isSelected);
      testCase.tests := testCase.tests[j := test'];
      testCase.shouldRun := testCase.shouldRun || isSelected;
      MarkedNext(before, testCase.tests, j);
    }
    assert testCase.tests[..|testCase.tests|] == testCase.tests;
    assert Names(testCase.tests) == names;
  }

  lemma MarkedNone(tests: seq<TestInfo>)
    ensures Marked(tests[..0]) == 0
  {
  }

  lemma NoneBefore(o: Options, testCase: string, names: seq<string>)
    ensures RunnableBefore(o, testCase, names, 0) == 0
  {
  }

  lemma HereIs(p: Protocol, id: nat, here: bool)
    requires IsProtocol(p) && (here <==> p == Ignore || id % p.totalShards == p.shardIndex)
    ensures here <==> Here(p, id)
  {
  }

  lemma OneMore(o: Options, p: Protocol, testCase: string, names: seq<string>, j: nat, n: nat)
    requires j < |names| && IsProtocol(p)
    ensures RunnableBefore(o, testCase, names, j + 1) == RunnableBefore(o, testCase, names, j) + if Runnable(o, testCase, names[j]) then 1 else 0
    ensures SelectedBelow(p, n + 1) == SelectedBelow(p, n) + if Here(p, n) then 1 else 0
  {
  }

  lemma MarkedNext(before: seq<TestInfo>, after: seq<TestInfo>, j: nat)
    requires |before| == |after| && j < |after| && before[..j] == after[..j]
    ensures Marked(after[..j + 1]) == Marked(before[..j]) + if after[j].shouldRun then 1 else 0
  {
    assert after[..j + 1][..j] == before[..j];
  }

  /**
   Marks every test and every case, and counts: a test runs exactly when it is runnable and its number belongs here, and the result
   is the number of tests marked.
   */
  method FilterTests(testCases: seq<TestCase>, o: Options, p: Protocol) returns (selected: nat)
    requires IsProtocol(p) && forall i, j | 0 <= i < j < |testCases| :: testCases[i] != testCases[j]
    modifies testCases`tests, testCases`shouldRun
    ensures Registrations(testCases) == old(Registrations(testCases))
    ensures forall i | 0 <= i < |testCases| :: CaseJudged(o, p, old(Registrations(testCases)), testCases[i], i)
    ensures selected == MarkedIn(testCases) == SelectedBelow(p, RunnableUpTo(o, old(Registrations(testCases)), |testCases|))
  {
    hide Names, Marked, CaseJudged, RunnableBefore, SelectedBelow, RunnableUpTo, Registrations, MarkedIn;
    ghost var r := Registrations(testCases);
    var runnable: nat := 0;
    selected := 0;
    SelectedNone(p);
    NothingYet(o, r, testCases);
    for i := 0 to |testCases|
      invariant forall k | 0 <= k < |testCases| :: Names(testCases[k].tests) == r[k].tests
      invariant forall k | 0 <= k < i :: CaseJudged(o, p, r, testCases[k], k)
      invariant runnable == RunnableUpTo(o, r, i)
      invariant selected == SelectedBelow(p, runnable) && selected == MarkedIn(testCases[..i])
    {
      runnable, selected := FilterNext(testCases[i], i, o, p, r, runnable, selected);
      MarkedInNext(testCases, i);
    }
    assert testCases[..|testCases|] == testCases;
    assert Registrations(testCases) == r;
  }

  /** One turn of the outer loop. */
  method FilterNext(testCase: TestCase, ghost i: nat, o: Options, p: Protocol, ghost r: seq<Registration>, runnable0: nat, selected0: nat)
    returns (runnable: nat, selected: nat)
    requires i < |r| && IsProtocol(p)
    requires testCase.name == r[i].name && Names(testCase.tests) == r[i].tests
    requires runnable0 == RunnableUpTo(o, r, i) && selected0 == SelectedBelow(p, runnable0)
    modifies testCase`tests, testCase`shouldRun
    ensures Names(testCase.tests) == r[i].tests && CaseJudged(o, p, r, testCase, i)
    ensures runnable == RunnableUpTo(o, r, i + 1)
    ensures selected == SelectedBelow(p, runnable) && selected == selected0 + Marked(testCase.tests)
  {
    hide Names, Marked, Judged, RunnableBefore, SelectedBelow;
    runnable, selected := FilterCase(testCase, o, p, runnable0, selected0);
  }

  lemma NothingYet(o: Options, r: seq<Registration>, testCases: seq<TestCase>)
    ensures RunnableUpTo(o, r, 0) == 0 && MarkedIn(testCases[..0]) == 0
  {
  }

  lemma MarkedInNext(testCases: seq<TestCase>, i: nat)
    requires i < |testCases|
    ensures MarkedIn(testCases[..i + 1]) == MarkedIn(testCases[..i]) + Marked(testCases[i].tests)
  {
    assert testCases[..i + 1][..i] == testCases[..i];
  }

  lemma SelectedNone(p: Protocol)
    requires IsProtocol(p)
    ensures SelectedBelow(p, 0) == 0
  {
  }

  ghost predicate CaseJudged(o: Options, p: Protocol, r: seq<Registration>, testCase: TestCase, i: nat)
    requires IsProtocol(p) && i < |r|
    reads testCase`tests, testCase`shouldRun
  {
    && |testCase.tests| == |r[i].tests|
    && testCase.name == r[i].name
    && (forall j | 0 <= j < |testCase.tests| :: Judged(o, p, r[i].name, r[i].tests, RunnableUpTo(o, r, i), testCase.tests[j], j))
    && (testCase.shouldRun <==> exists j :: 0 <= j < |testCase.tests| && testCase.tests[j].shouldRun)
  }

  // ---------------------------------------------------------------- the shards partition the runnable tests

  /** Every number belongs to exactly one shard. */
  lemma ExactlyOneShard(totalShards: nat, id: nat)
    requires totalShards > 0
    ensures exists s :: 0 <= s < totalShards && Here(Honor(totalShards, s), id)
    ensures forall s, t | 0 <= s < totalShards && 0 <= t < totalShards && Here(Honor(totalShards, s), id) && Here(Honor(totalShards, t), id) :: s == t
  {
    assert Here(Honor(totalShards, id % totalShards), id);
  }

  /** A shard's share of n runnable tests, in closed form. */
  lemma {:induction false} ShardSize(totalShards: nat, s: nat, n: nat)
    requires s < totalShards
    ensures SelectedBelow(Honor(totalShards, s), n) == (n + totalShards - 1 - s) / totalShards
  {
    if n == 0 {
      QuotientIs(totalShards - 1 - s, totalShards, 0);
    } else {
      ShardSize(totalShards, s, n - 1);
      var a := n - 1 + totalShards - 1 - s;
      DivStep(a, totalShards);
      assert (n - 1) % totalShards == s <==> (a + 1) % totalShards == 0 by { SameResidue(n - 1, s, totalShards); }
    }
  }

  lemma QuotientIs(a: nat, d: nat, q: nat)
    requires d > 0 && d * q <= a < d * q + d
    ensures a / d == q
  {
    DivModUnique(a, d, q, a - d * q);
  }

  lemma DivStep(a: nat, d: nat)
    requires d > 0
    ensures (a + 1) / d == a / d + if (a + 1) % d == 0 then 1 else 0
  {
    var q, r := a / d, a % d;
    assert a == d * q + r;
    if r + 1 == d {
      assert a + 1 == d * (q + 1);
      QuotientIs(a + 1, d, q + 1);
    } else {
      QuotientIs(a + 1, d, q);
    }
  }

  lemma SameResidue(m: nat, s: nat, d: nat)
    requires s < d
    ensures m % d == s <==> (m + d - s) % d == 0
  {
    var q, r := m / d, m % d;
    assert m == d * q + r;
    var x := m + d - s;
    if r >= s {
      assert x == d * (q + 1) + (r - s);
      QuotientIs(x, d, q + 1);
    } else {
      QuotientIs(x, d, q);
    }
  }

  /** Shard sizes differ by at most one. */
  lemma ShardsAreBalanced(totalShards: nat, s: nat, t: nat, n: nat)
    requires s < totalShards && t < totalShards
    ensures SelectedBelow(Honor(totalShards, s), n) <= SelectedBelow(Honor(totalShards, t), n) + 1
  {
    ShardSize(totalShards, s, n);
    ShardSize(totalShards, t, n);
    var a, b := n + totalShards - 1 - s, n + totalShards - 1 - t;
    DivMonotone(a, b + totalShards, totalShards);
    DivShift(b, totalShards);
  }

  lemma DivMonotone(a: nat, b: nat, d: nat)
    requires d > 0 && a <= b
    ensures a / d <= b / d
  {
    MulMonotone(d, b / d, a / d);
  }

  lemma DivShift(a: nat, d: nat)
    requires d > 0
    ensures (a + d) / d == a / d + 1
  {
    QuotientIs(a + d, d, a / d + 1);
  }

  /** The tests of the first k shards together. */
  function SelectedByFirst(totalShards: nat, k: nat, n: nat): nat
    requires k <= totalShards
  {
    if k == 0 then 0 else SelectedByFirst(totalShards, k - 1, n) + SelectedBelow(Honor(totalShards, k - 1), n)
  }

  /** Together the shards run exactly the runnable tests. */
  lemma {:induction false} ShardsCoverEverything(totalShards: nat, n: nat)
    requires totalShards > 0
    ensures SelectedByFirst(totalShards, totalShards, n) == n
  {
    if n == 0 {
      FirstShardsOfNone(totalShards, totalShards);
    } else {
      ShardsCoverEverything(totalShards, n - 1);
      FirstShardsStep(totalShards, totalShards, n - 1);
    }
  }

  lemma {:induction false} FirstShardsOfNone(totalShards: nat, k: nat)
    requires k <= totalShards
    ensures SelectedByFirst(totalShards, k, 0) == 0
  {
    if k > 0 { FirstShardsOfNone(totalShards, k - 1); }
  }

  lemma {:induction false} FirstShardsStep(totalShards: nat, k: nat, n: nat)
    requires k <= totalShards && totalShards > 0
    ensures SelectedByFirst(totalShards, k, n + 1) == SelectedByFirst(totalShards, k, n) + if n % totalShards < k then 1 else 0
  {
    if k > 0 { FirstShardsStep(totalShards, k - 1, n); }
  }
}
