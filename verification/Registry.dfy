/** What a sequence of test declarations leaves registered. */
module Registry {
  import opened CText
  import Glob

  const DEATH_TEST_CASE_FILTER: CString := "*DeathTest:*DeathTest/*"

  ghost predicate IsDeathTestCase(name: string) { Glob.FilterAccepts(DEATH_TEST_CASE_FILTER, name) }

  /** Which cases those are: by the end of the name, or by what stands before a slash. */
  lemma DeathTestCaseIff(name: string)
    ensures IsDeathTestCase(name) <==> Glob.EndsWith(name, "DeathTest") || Glob.Contains(name, "DeathTest/")
  {
    var plain, slashed := "DeathTest", "DeathTest/";
    assert DEATH_TEST_CASE_FILTER == ("*" + plain) + ":" + ("*" + (slashed + "*"));
    assert Glob.IsPlainName(plain) && Glob.IsPlainName(slashed) && ':' !in "*" + plain && ':' !in "*" + (slashed + "*");
    hide Glob.GlobMatches, Glob.FilterAccepts, Glob.IsPlainName;
    Glob.AcceptsEither("*" + plain, "*" + (slashed + "*"), name);
    Glob.AcceptsOne("*" + plain, name);
    Glob.AcceptsOne("*" + (slashed + "*"), name);
    Glob.SuffixPattern(plain, name);
    Glob.ContainsPattern(slashed, name);
  }

  /** A case as registered: its name and the names of its tests. */
  datatype Registration = Registration(name: string, tests: seq<string>)

  /** Everything registered, the death test cases first. */
  datatype Registry = Registry(cases: seq<Registration>, deaths: nat)

  /** The position of the case with the given name, or the length. */
  function IndexOfCase(cases: seq<Registration>, name: string): (k: nat)
    ensures k <= |cases| && (k < |cases| ==> cases[k].name == name)
    ensures forall j | 0 <= j < k :: cases[j].name != name
  {
    if cases == [] then 0
    else
      var k := IndexOfCase(cases[..|cases| - 1], name);
      if k < |cases| - 1 then k else if cases[|cases| - 1].name == name then |cases| - 1 else |cases|
  }

  /** One more test: in its case, if there is one, else in a new case behind the death test cases or at the end. */
  ghost function Entered(r: Registry, testCase: string, test: string): (q: Registry)
    requires r.deaths <= |r.cases|
    ensures q.deaths <= |q.cases|
  {
    var k := IndexOfCase(r.cases, testCase);
    if k < |r.cases| then r.(cases := r.cases[k := Registration(testCase, r.cases[k].tests + [test])])
    else if IsDeathTestCase(testCase) then
      Registry(r.cases[..r.deaths] + [Registration(testCase, [test])] + r.cases[r.deaths..], r.deaths + 1)
    else r.(cases := r.cases + [Registration(testCase, [test])])
  }

  /** A case by that name, empty if it is new: first what GetTestCase does, then what adding the test to the case does. */
  ghost function Opened(r: Registry, testCase: string): (q: Registry)
    requires r.deaths <= |r.cases|
    ensures q.deaths <= |q.cases|
  {
    if IndexOfCase(r.cases, testCase) < |r.cases| then r
    else if IsDeathTestCase(testCase) then
      Registry(r.cases[..r.deaths] + [Registration(testCase, [])] + r.cases[r.deaths..], r.deaths + 1)
    else r.(cases := r.cases[..|r.cases|] + [Registration(testCase, [])] + r.cases[|r.cases|..])
  }

  function Added(r: Registry, testCase: string, test: string): Registry {
    var k := IndexOfCase(r.cases, testCase);
    if k < |r.cases| then r.(cases := r.cases[k := Registration(testCase, r.cases[k].tests + [test])]) else r
  }

  lemma OpenedThenAdded(r: Registry, testCase: string, test: string)
    requires r.deaths <= |r.cases|
    ensures Added(Opened(r, testCase), testCase, test) == Entered(r, testCase, test)
  {
    hide IndexOfCase, IsDeathTestCase;
    if IndexOfCase(r.cases, testCase) == |r.cases| {
      var q, at := Opened(r, testCase), if IsDeathTestCase(testCase) then r.deaths else |r.cases|;
      assert q.cases[at] == Registration(testCase, []);
      assert forall j | 0 <= j < at :: q.cases[j] == r.cases[j];
      assert IndexOfCase(q.cases, testCase) == at;
      assert [] + [test] == [test];
      assert q.cases[at := Registration(testCase, [test])] == r.cases[..at] + [Registration(testCase, [test])] + r.cases[at..];
    }
  }

  lemma AddedIs(r: Registry, testCase: string, test: string, k: nat, after: seq<Registration>)
    requires NamesDiffer(r.cases) && k < |r.cases| == |after| && r.cases[k].name == testCase
    requires after[k] == Registration(testCase, r.cases[k].tests + [test])
    requires forall j | 0 <= j < |after| && j != k :: after[j] == r.cases[j]
    ensures Registry(after, r.deaths) == Added(r, testCase, test)
  {
    hide IndexOfCase;
    assert IndexOfCase(r.cases, testCase) == k;
    assert after == r.cases[k := after[k]];
  }

  datatype Declaration = Declaration(testCase: CString, test: CString)

  ghost function RegistryOf(tests: seq<Declaration>): (r: Registry)
    ensures r.deaths <= |r.cases|
  {
    if tests == [] then Registry([], 0)
    else Entered(RegistryOf(tests[..|tests| - 1]), tests[|tests| - 1].testCase, tests[|tests| - 1].test)
  }

  /** The tests declared for a case, in the order of their declarations. */
  function TestsOf(tests: seq<Declaration>, testCase: string): seq<string> {
    if tests == [] then []
    else
      var last := tests[|tests| - 1];
      TestsOf(tests[..|tests| - 1], testCase) + if last.testCase == testCase then [last.test] else []
  }

  ghost predicate NamesDiffer(cases: seq<Registration>) {
    forall j, k | 0 <= j < k < |cases| :: cases[j].name != cases[k].name
  }

  ghost predicate CaseIsRight(tests: seq<Declaration>, r: Registry, k: nat)
    requires k < |r.cases|
  {
    && r.cases[k].tests == TestsOf(tests, r.cases[k].name) != []
    && (k < r.deaths <==> IsDeathTestCase(r.cases[k].name))
  }

  ghost predicate IsRight(tests: seq<Declaration>, r: Registry) {
    && r.deaths <= |r.cases|
    && NamesDiffer(r.cases)
    && (forall k | 0 <= k < |r.cases| :: CaseIsRight(tests, r, k))
    && (forall j | 0 <= j < |tests| :: IndexOfCase(r.cases, tests[j].testCase) < |r.cases|)
  }

  /** Every case is registered once, death test cases first, with exactly the tests declared for it, in order; and no case is missing. */
  lemma {:induction false} RegistryIsRight(tests: seq<Declaration>)
    ensures IsRight(tests, RegistryOf(tests))
  {
    hide IsDeathTestCase, Entered, IsRight;
    if tests == [] {
      NothingIsRight();
    } else {
      var last := tests[|tests| - 1];
      RegistryIsRight(tests[..|tests| - 1]);
      EnteredIsRight(tests, RegistryOf(tests[..|tests| - 1]));
    }
  }

  lemma NothingIsRight()
    ensures IsRight([], Registry([], 0))
  {
  }

  lemma EnteredIsRight(tests: seq<Declaration>, r: Registry)
    requires tests != [] && IsRight(tests[..|tests| - 1], r)
    ensures IsRight(tests, Entered(r, tests[|tests| - 1].testCase, tests[|tests| - 1].test))
  {
    hide IsDeathTestCase, IndexOfCase, Entered, CaseIsRight, NamesDiffer, TestsOf;
    var init, last := tests[..|tests| - 1], tests[|tests| - 1];
    var q := Entered(r, last.testCase, last.test);
    if IndexOfCase(r.cases, last.testCase) < |r.cases| {
      KnownCaseIsRight(tests, r);
    } else {
      NewCaseIsRight(tests, r);
    }
    forall j | 0 <= j < |tests| ensures IndexOfCase(q.cases, tests[j].testCase) < |q.cases| {
      if j < |init| {
        assert init[j] == tests[j];
        NamesStay(r, last.testCase, last.test, tests[j].testCase);
      } else {
        NameIsThere(r, last.testCase, last.test);
      }
    }
  }

  lemma KnownCaseIsRight(tests: seq<Declaration>, r: Registry)
    requires tests != [] && IsRight(tests[..|tests| - 1], r)
    requires IndexOfCase(r.cases, tests[|tests| - 1].testCase) < |r.cases|
    ensures var q := Entered(r, tests[|tests| - 1].testCase, tests[|tests| - 1].test);
            NamesDiffer(q.cases) && forall j | 0 <= j < |q.cases| :: CaseIsRight(tests, q, j)
  {
    hide IsDeathTestCase, IndexOfCase;
    var init, last := tests[..|tests| - 1], tests[|tests| - 1];
    var k, q := IndexOfCase(r.cases, last.testCase), Entered(r, last.testCase, last.test);
    forall j | 0 <= j < |q.cases| ensures CaseIsRight(tests, q, j) {
      assert CaseIsRight(init, r, j);
      assert j != k ==> r.cases[j].name != last.testCase;
    }
  }

  lemma NewCaseIsRight(tests: seq<Declaration>, r: Registry)
    requires tests != [] && IsRight(tests[..|tests| - 1], r)
    requires IndexOfCase(r.cases, tests[|tests| - 1].testCase) == |r.cases|
    ensures var q := Entered(r, tests[|tests| - 1].testCase, tests[|tests| - 1].test);
            NamesDiffer(q.cases) && forall j | 0 <= j < |q.cases| :: CaseIsRight(tests, q, j)
  {
    hide IsDeathTestCase, IndexOfCase, TestsOf, CaseIsRight, NamesDiffer;
    var init, last := tests[..|tests| - 1], tests[|tests| - 1];
    var q := Entered(r, last.testCase, last.test);
    var at := if IsDeathTestCase(last.testCase) then r.deaths else |r.cases|;
    NotDeclared(init, last.testCase, r);
    NewCaseStands(r, last.testCase, last.test, at);
    hide Entered;
    NewNameDiffers(r.cases, q.cases, at);
    forall j | 0 <= j < |q.cases| ensures CaseIsRight(tests, q, j) {
      if j != at {
        OtherCaseIsRight(tests, r, q, if j < at then j else j - 1, j);
      } else {
        OwnCaseIsRight(tests, q, at);
      }
    }
  }

  lemma NewNameDiffers(cases: seq<Registration>, after: seq<Registration>, at: nat)
    requires NamesDiffer(cases) && at <= |cases| && |after| == |cases| + 1
    requires forall j | 0 <= j < |after| && j != at :: after[j] == cases[if j < at then j else j - 1]
    requires forall j | 0 <= j < |cases| :: cases[j].name != after[at].name
    ensures NamesDiffer(after)
  {
  }

  lemma {:induction false} OtherCaseIsRight(tests: seq<Declaration>, r: Registry, q: Registry, i: nat, j: nat)
    requires tests != [] && i < |r.cases| && j < |q.cases| && CaseIsRight(tests[..|tests| - 1], r, i)
    requires r.cases[i].name != tests[|tests| - 1].testCase && q.cases[j] == r.cases[i] && (j < q.deaths <==> i < r.deaths)
    ensures CaseIsRight(tests, q, j)
  {
    hide TestsOf, IsDeathTestCase;
    TestsOfNext(tests, r.cases[i].name);
  }

  lemma {:induction false} OwnCaseIsRight(tests: seq<Declaration>, q: Registry, at: nat)
    requires tests != [] && at < |q.cases| && TestsOf(tests[..|tests| - 1], tests[|tests| - 1].testCase) == []
    requires q.cases[at] == Registration(tests[|tests| - 1].testCase, [tests[|tests| - 1].test])
    requires at < q.deaths <==> IsDeathTestCase(q.cases[at].name)
    ensures CaseIsRight(tests, q, at)
  {
    hide TestsOf, IsDeathTestCase;
    TestsOfNext(tests, tests[|tests| - 1].testCase);
    assert [] + [tests[|tests| - 1].test] == [tests[|tests| - 1].test];
  }

  lemma NewCaseStands(r: Registry, testCase: string, test: string, at: nat)
    requires r.deaths <= |r.cases| && IndexOfCase(r.cases, testCase) == |r.cases|
    requires at == if IsDeathTestCase(testCase) then r.deaths else |r.cases|
    ensures var q := Entered(r, testCase, test);
            && |q.cases| == |r.cases| + 1 && q.deaths == r.deaths + (if IsDeathTestCase(testCase) then 1 else 0)
            && forall j | 0 <= j < |q.cases| ::
                 q.cases[j] == if j < at then r.cases[j] else if j == at then Registration(testCase, [test]) else r.cases[j - 1]
  {
    hide IsDeathTestCase, IndexOfCase;
  }

  lemma TestsOfNext(tests: seq<Declaration>, testCase: string)
    requires tests != []
    ensures var last := tests[|tests| - 1];
            TestsOf(tests, testCase) == if last.testCase == testCase then TestsOf(tests[..|tests| - 1], testCase) + [last.test]
                                        else TestsOf(tests[..|tests| - 1], testCase)
  {
  }

  lemma {:induction false} NotDeclared(tests: seq<Declaration>, testCase: string, r: Registry)
    requires forall j | 0 <= j < |tests| :: IndexOfCase(r.cases, tests[j].testCase) < |r.cases|
    requires IndexOfCase(r.cases, testCase) == |r.cases|
    ensures TestsOf(tests, testCase) == []
  {
    hide IndexOfCase;
    if tests != [] {
      NotDeclared(tests[..|tests| - 1], testCase, r);
      assert tests[|tests| - 1].testCase != testCase;
    }
  }

  lemma HasIndex(cases: seq<Registration>, k: nat)
    requires k < |cases|
    ensures IndexOfCase(cases, cases[k].name) < |cases|
  {
    hide IndexOfCase;
  }

  lemma NamesStay(r: Registry, testCase: string, test: string, name: string)
    requires r.deaths <= |r.cases| && IndexOfCase(r.cases, name) < |r.cases|
    ensures var q := Entered(r, testCase, test); IndexOfCase(q.cases, name) < |q.cases|
  {
    hide IndexOfCase, IsDeathTestCase;
    var i, k, q := IndexOfCase(r.cases, name), IndexOfCase(r.cases, testCase), Entered(r, testCase, test);
    var i' := if k < |r.cases| || !IsDeathTestCase(testCase) || i < r.deaths then i else i + 1;
    assert q.cases[i'].name == name;
    HasIndex(q.cases, i');
  }

  lemma NameIsThere(r: Registry, testCase: string, test: string)
    requires r.deaths <= |r.cases|
    ensures var q := Entered(r, testCase, test); IndexOfCase(q.cases, testCase) < |q.cases|
  {
    hide IndexOfCase, IsDeathTestCase;
    var k, q := IndexOfCase(r.cases, testCase), Entered(r, testCase, test);
    var i := if k < |r.cases| then k else if IsDeathTestCase(testCase) then r.deaths else |r.cases|;
    assert q.cases[i].name == testCase;
    HasIndex(q.cases, i);
  }

  // ---------------------------------------------------------------- the order of the cases

  /** Where a case is first declared, or the number of declarations. */
  function FirstDeclared(tests: seq<Declaration>, testCase: string): (k: nat)
    ensures k <= |tests| && (k < |tests| ==> tests[k].testCase == testCase)
    ensures forall j | 0 <= j < k :: tests[j].testCase != testCase
  {
    if tests == [] then 0
    else
      var k := FirstDeclared(tests[..|tests| - 1], testCase);
      if k < |tests| - 1 then k else if tests[|tests| - 1].testCase == testCase then |tests| - 1 else |tests|
  }

  function Firsts(tests: seq<Declaration>, cases: seq<Registration>): (firsts: seq<nat>)
    ensures |firsts| == |cases| && forall k | 0 <= k < |cases| :: firsts[k] == FirstDeclared(tests, cases[k].name)
  {
    seq(|cases|, k requires 0 <= k < |cases| => FirstDeclared(tests, cases[k].name))
  }

  /** All below the bound, and ascending both in front of the mark and behind it. */
  predicate BothAscend(s: seq<nat>, mark: nat, bound: nat) {
    && (forall k | 0 <= k < |s| :: s[k] < bound)
    && forall j, k | 0 <= j < k < |s| && (k < mark || mark <= j) :: s[j] < s[k]
  }

  /** All cases have been declared, and those of a group stand in the order in which they were first declared. */
  ghost predicate InOrder(tests: seq<Declaration>, r: Registry) { BothAscend(Firsts(tests, r.cases), r.deaths, |tests|) }

  lemma {:induction false} DeclaredStays(tests: seq<Declaration>, testCase: string)
    requires tests != []
    ensures var k := FirstDeclared(tests[..|tests| - 1], testCase);
            k < |tests| - 1 ==> FirstDeclared(tests, testCase) == k
  {
  }

  lemma {:induction false} FirstsStay(tests: seq<Declaration>, cases: seq<Registration>)
    requires tests != [] && forall k | 0 <= k < |cases| :: FirstDeclared(tests[..|tests| - 1], cases[k].name) < |tests| - 1
    ensures Firsts(tests, cases) == Firsts(tests[..|tests| - 1], cases)
  {
    hide FirstDeclared, Firsts;
    forall k | 0 <= k < |cases|
      ensures FirstDeclared(tests, cases[k].name) == FirstDeclared(tests[..|tests| - 1], cases[k].name)
    {
      DeclaredStays(tests, cases[k].name);
    }
  }

  /** The bound itself put in where the front part ends, or at the very end. */
  lemma LastInGroup(s: seq<nat>, mark: nat, bound: nat, front: bool)
    requires BothAscend(s, mark, bound) && mark <= |s|
    ensures BothAscend(s, mark, bound + 1)
    ensures if front then BothAscend(s[..mark] + [bound] + s[mark..], mark + 1, bound + 1) else BothAscend(s + [bound], mark, bound + 1)
  {
  }

  lemma {:induction false} NotYetDeclared(tests: seq<Declaration>, r: Registry)
    requires tests != [] && IsRight(tests[..|tests| - 1], r) && IndexOfCase(r.cases, tests[|tests| - 1].testCase) == |r.cases|
    ensures FirstDeclared(tests, tests[|tests| - 1].testCase) == |tests| - 1
  {
    hide FirstDeclared, IndexOfCase, CaseIsRight, NamesDiffer;
    var init := tests[..|tests| - 1];
    forall j | 0 <= j < |init| ensures tests[j].testCase != tests[|tests| - 1].testCase {
      assert init[j] == tests[j];
    }
  }

  lemma {:induction false} FirstsOfKnown(tests: seq<Declaration>, r: Registry)
    requires tests != [] && r.deaths <= |r.cases| && IndexOfCase(r.cases, tests[|tests| - 1].testCase) < |r.cases|
    ensures var q := Entered(r, tests[|tests| - 1].testCase, tests[|tests| - 1].test);
            Firsts(tests, q.cases) == Firsts(tests, r.cases) && q.deaths == r.deaths
  {
    hide FirstDeclared, IndexOfCase, Firsts;
  }

  lemma {:induction false} FirstsOfNew(tests: seq<Declaration>, r: Registry)
    requires tests != [] && r.deaths <= |r.cases| && IndexOfCase(r.cases, tests[|tests| - 1].testCase) == |r.cases|
    ensures var last, firsts := tests[|tests| - 1], Firsts(tests, r.cases);
            var q, x := Entered(r, last.testCase, last.test), FirstDeclared(tests, last.testCase);
            if IsDeathTestCase(last.testCase) then q.deaths == r.deaths + 1 && Firsts(tests, q.cases) == firsts[..r.deaths] + [x] + firsts[r.deaths..]
            else q.deaths == r.deaths && Firsts(tests, q.cases) == firsts + [x]
  {
    hide FirstDeclared, IndexOfCase, Firsts, IsDeathTestCase;
  }

  lemma {:induction false} EnteredInOrder(tests: seq<Declaration>, r: Registry)
    requires tests != [] && r.deaths <= |r.cases| && InOrder(tests[..|tests| - 1], r) && IsRight(tests[..|tests| - 1], r)
    ensures InOrder(tests, Entered(r, tests[|tests| - 1].testCase, tests[|tests| - 1].test))
  {
    hide FirstDeclared, IsDeathTestCase, IndexOfCase, IsRight, Firsts, Entered, BothAscend;
    var init, last := tests[..|tests| - 1], tests[|tests| - 1];
    var firsts := Firsts(init, r.cases);
    BelowBound(firsts, r.deaths, |init|);
    FirstsStay(tests, r.cases);
    LastInGroup(firsts, r.deaths, |init|, IsDeathTestCase(last.testCase));
    if IndexOfCase(r.cases, last.testCase) < |r.cases| {
      FirstsOfKnown(tests, r);
    } else {
      NotYetDeclared(tests, r);
      FirstsOfNew(tests, r);
    }
  }

  lemma BelowBound(s: seq<nat>, mark: nat, bound: nat)
    requires BothAscend(s, mark, bound)
    ensures forall k | 0 <= k < |s| :: s[k] < bound
  {
  }

  /** Among the death test cases, and among the others, the cases are registered in the order of their first declarations. */
  lemma {:induction false} CasesAreInOrder(tests: seq<Declaration>)
    ensures InOrder(tests, RegistryOf(tests))
  {
    hide InOrder, IsRight, Entered;
    if tests == [] {
      NothingInOrder();
    } else {
      var init := tests[..|tests| - 1];
      CasesAreInOrder(init);
      RegistryIsRight(init);
      EnteredInOrder(tests, RegistryOf(init));
    }
  }

  lemma NothingInOrder()
    ensures InOrder([], Registry([], 0))
  {
  }
}
