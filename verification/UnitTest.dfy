/** The test registry: registration, selection and sharding, and the repeated, possibly shuffled, runs. */
module UnitTest {
  import opened CText
  import Glob
  import opened RandomOrder
  import opened Registry
  import opened Visits

  datatype TestInfo = TestInfo(name: CString, isDisabled: bool, matchesFilter: bool, shouldRun: bool)

  // ---------------------------------------------------------------- test cases

  class TestCase {
    const name: CString
    var tests: seq<TestInfo>
    var indices: seq<nat>
    var shouldRun: bool

    ghost predicate Valid()
      reads this
    {
      |indices| == |tests| <= MAX_RANGE && IsPermutation(indices)
    }

    ghost predicate InOrder()
      reads this
    {
      Valid() && indices == Identity(|tests|)
    }

    constructor (name: CString)
      ensures InOrder() && this.name == name && tests == [] && !shouldRun
    {
      this.name, tests, indices, shouldRun := name, [], [], false;
    }

    method AddTestInfo(info: TestInfo)
      requires InOrder() && |tests| < MAX_RANGE
      modifies this`tests, this`indices
      ensures InOrder() && tests == old(tests) + [info] && shouldRun == old(shouldRun)
    {
      IdentityIsPermutation(|tests| + 1);
      assert indices + [|indices|] == Identity(|tests| + 1);
      tests := tests + [info];
      indices := indices + [|indices|];
    }

    method ShuffleTests(random: Random)
      requires Valid()
      modifies this`indices, random
      ensures Valid()
      ensures (indices, random.state) == Shuffled(old(random.state), old(indices), 0, |old(indices)|)
    {
      hide Shuffled, RearrangedWithin, IsPermutation;
      ShuffleRearranges(random.state, indices, 0, |indices|);
      RearrangedIsPermutation(indices, Shuffled(random.state, indices, 0, |indices|).0, 0, |indices|);
      indices := ShuffleRange(random, 0, |indices|, indices);
    }

    method UnshuffleTests()
      requires Valid()
      modifies this`indices
      ensures InOrder()
    {
      for i := 0 to |indices|
        invariant |indices| == |tests|
        invariant forall k | 0 <= k < i :: indices[k] == k
      {
        indices := indices[i := i];
      }
      IdentityIsPermutation(|tests|);
      assert indices == Identity(|tests|);
    }

    ghost function Noted(): Marks
      reads this
    {
      Marks(shouldRun, ShouldRuns(tests))
    }

    /** The test at position i of the current order. */
    method GetMutableTestInfo(i: int) returns (index: int)
      requires Valid()
      ensures if 0 <= i < |indices| then index == indices[i] < |tests| else index == -1
    {
      index := if 0 <= i < |indices| then indices[i] else -1;
      if 0 <= i < |indices| { PermutationInRange(indices, i); }
    }

    /** The numbers of the tests run, in order: of a selected case those marked to run, else none. */
    method Run() returns (visited: seq<nat>)
      requires Valid()
      ensures visited == Executed(indices, Noted())
    {
      hide IsPermutation, ExecutedUpTo;
      visited := [];
      if !shouldRun {
        return;
      }
      NoneExecuted(indices, Noted());
      for i := 0 to |tests|
        invariant visited == ExecutedUpTo(indices, ShouldRuns(tests), i)
      {
        var index := GetMutableTestInfo(i);
        OneExecuted(indices, Noted(), i);
        if tests[index].shouldRun {
          visited := visited + [index];
        }
      }
    }
  }

  function ShouldRuns(tests: seq<TestInfo>): (marks: seq<bool>)
    ensures |marks| == |tests| && forall j | 0 <= j < |tests| :: marks[j] == tests[j].shouldRun
  {
    if tests == [] then [] else ShouldRuns(tests[..|tests| - 1]) + [tests[|tests| - 1].shouldRun]
  }

  // ---------------------------------------------------------------- what has been registered

  function Names(tests: seq<TestInfo>): (names: seq<string>)
    ensures |names| == |tests| && forall j | 0 <= j < |tests| :: names[j] == tests[j].name
  {
    if tests == [] then [] else Names(tests[..|tests| - 1]) + [tests[|tests| - 1].name]
  }

  ghost function Registrations(cases: seq<TestCase>): (r: seq<Registration>)
    reads cases`tests
    ensures |r| == |cases| && forall i | 0 <= i < |cases| :: r[i] == Registration(cases[i].name, Names(cases[i].tests))
  {
    if cases == [] then []
    else Registrations(cases[..|cases| - 1]) + [Registration(cases[|cases| - 1].name, Names(cases[|cases| - 1].tests))]
  }

  lemma NamesNext(tests: seq<TestInfo>)
    requires tests != []
    ensures Names(tests) == Names(tests[..|tests| - 1]) + [tests[|tests| - 1].name]
  {
  }

  // ---------------------------------------------------------------- the registry

  /** Different names, and exactly the first deaths ones are death test cases. */
  ghost predicate WellRegistered(cases: seq<TestCase>, deaths: int) {
    && 0 <= deaths <= |cases| <= MAX_RANGE
    && (forall j, k | 0 <= j < k < |cases| :: cases[j].name != cases[k].name)
    && (forall k | 0 <= k < |cases| :: k < deaths <==> IsDeathTestCase(cases[k].name))
  }

  /** A new death test case goes behind the last one so far, any other to the end. */
  function Registered(cases: seq<TestCase>, deaths: nat, testCase: TestCase, death: bool): seq<TestCase>
    requires deaths <= |cases|
  {
    if death then cases[..deaths] + [testCase] + cases[deaths..] else cases + [testCase]
  }

  ghost predicate HasName(cases: seq<TestCase>, name: string) { exists k :: 0 <= k < |cases| && cases[k].name == name }

  lemma RegisteredIsWell(cases: seq<TestCase>, deaths: nat, testCase: TestCase, death: bool)
    requires WellRegistered(cases, deaths) && |cases| < MAX_RANGE && !HasName(cases, testCase.name)
    requires death <==> IsDeathTestCase(testCase.name)
    ensures WellRegistered(Registered(cases, deaths, testCase, death), if death then deaths + 1 else deaths)
  {
    hide IsDeathTestCase;
    var cases' := Registered(cases, deaths, testCase, death);
    var at := if death then deaths else |cases|;
    forall k | 0 <= k < |cases'| ensures cases'[k] == if k < at then cases[k] else if k == at then testCase else cases[k - 1] {}
  }

  lemma NothingToOpen(cases: seq<TestCase>, deaths: nat, name: string)
    requires deaths <= |cases| && HasName(cases, name)
    ensures Opened(Registry(Registrations(cases), deaths), name) == Registry(Registrations(cases), deaths)
  {
    hide IsDeathTestCase, IndexOfCase;
    var k :| 0 <= k < |cases| && cases[k].name == name;
    assert Registrations(cases)[k].name == name;
  }

  lemma RegisteredIsOpened(cases: seq<TestCase>, deaths: nat, testCase: TestCase, death: bool)
    requires deaths <= |cases| && !HasName(cases, testCase.name) && testCase.tests == []
    requires death <==> IsDeathTestCase(testCase.name)
    ensures Registry(Registrations(Registered(cases, deaths, testCase, death)), if death then deaths + 1 else deaths)
         == Opened(Registry(Registrations(cases), deaths), testCase.name)
  {
    hide IsDeathTestCase, IndexOfCase, Registrations, Names;
    var r, at := Registrations(cases), if death then deaths else |cases|;
    NameIsNew(cases, testCase.name);
    assert Names(testCase.tests) == [];
    assert Registrations([testCase]) == [Registration(testCase.name, [])];
    assert cases[..|cases|] == cases && cases[|cases|..] == [];
    assert Registered(cases, deaths, testCase, death) == cases[..at] + [testCase] + cases[at..];
    RegistrationsInserted(cases, at, testCase);
  }

  lemma NameIsNew(cases: seq<TestCase>, name: string)
    requires !HasName(cases, name)
    ensures IndexOfCase(Registrations(cases), name) == |cases|
  {
    hide IndexOfCase, Registrations;
    forall k | 0 <= k < |cases| ensures Registrations(cases)[k].name != name {
      assert Registrations(cases)[k].name == cases[k].name;
    }
  }

  lemma RegistrationsInserted(cases: seq<TestCase>, at: nat, testCase: TestCase)
    requires at <= |cases|
    ensures Registrations(cases[..at] + [testCase] + cases[at..])
         == Registrations(cases)[..at] + Registrations([testCase]) + Registrations(cases)[at..]
  {
    hide Registrations, Names;
    RegistrationsConcat(cases[..at], [testCase]);
    RegistrationsConcat(cases[..at] + [testCase], cases[at..]);
    RegistrationsConcat(cases[..at], cases[at..]);
    assert cases[..at] + cases[at..] == cases;
    Halves(Registrations(cases[..at]), Registrations(cases[at..]));
  }

  lemma Halves<T>(a: seq<T>, b: seq<T>)
    ensures (a + b)[..|a|] == a && (a + b)[|a|..] == b
  {
  }

  lemma {:induction false} RegistrationsConcat(a: seq<TestCase>, b: seq<TestCase>)
    ensures Registrations(a + b) == Registrations(a) + Registrations(b)
  {
    if b == [] {
      assert a + b == a;
    } else {
      RegistrationsConcat(a, b[..|b| - 1]);
      assert (a + b)[..|a + b| - 1] == a + b[..|b| - 1];
    }
  }

  lemma DistinctNamesDistinctCases(cases: seq<TestCase>, deaths: int)
    requires WellRegistered(cases, deaths)
    ensures forall j, k | 0 <= j < k < |cases| :: cases[j] != cases[k]
  {
  }

  class UnitTestImpl {
    var testCases: seq<TestCase>
    var indices: seq<nat>
    var lastDeathTestCase: int
    const random: Random

    ghost predicate Valid()
      reads this, testCases
    {
      && WellRegistered(testCases, lastDeathTestCase + 1)
      && |indices| == |testCases| && IsPermutation(indices)
      && forall c | c in testCases :: c.Valid()
    }

    /** Nothing is shuffled. */
    ghost predicate InOrder()
      reads this, testCases
    {
      && Valid()
      && indices == Identity(|testCases|)
      && forall c | c in testCases :: c.InOrder()
    }

    constructor ()
      ensures InOrder() && Valid() && testCases == [] && fresh(random) && Entries() == Registry([], 0)
    {
      testCases, indices, lastDeathTestCase := [], [], -1;
      random := new Random(0);
    }

    method FindTestCase(name: CString) returns (found: TestCase?)
      ensures if HasName(testCases, name) then found != null && found in testCases && found.name == name else found == null
    {
      var i := 0;
      while i < |testCases|
        invariant 0 <= i <= |testCases|
        invariant forall k | 0 <= k < i :: testCases[k].name != name
      {
        if testCases[i].name == name {
          return testCases[i];
        }
        i := i + 1;
      }
      return null;
    }

    /** Finds the test case with the given name or registers a new one.  Callers must not have shuffled. */
    method GetTestCase(name: CString) returns (testCase: TestCase)
      requires InOrder() && |testCases| < MAX_RANGE
      modifies this`testCases, this`indices, this`lastDeathTestCase
      ensures InOrder() && Valid()
      ensures testCase in testCases && testCase.name == name
      ensures HasName(old(testCases), name) ==> testCases == old(testCases) && lastDeathTestCase == old(lastDeathTestCase)
      ensures !HasName(old(testCases), name) ==>
                && fresh(testCase) && testCase.tests == []
                && testCases == Registered(old(testCases), old(lastDeathTestCase) + 1, testCase, IsDeathTestCase(name))
                && lastDeathTestCase == old(lastDeathTestCase) + if IsDeathTestCase(name) then 1 else 0
      ensures Entries() == Opened(old(Entries()), name)
    {
      hide InOrder, Valid, Entries, IsPermutation, IsDeathTestCase, WellRegistered, HasName, Registrations, Opened, Registered;
      CasesFit();
      EntriesAre();
      var found := FindTestCase(name);
      if found != null {
        NothingToOpen(testCases, lastDeathTestCase + 1, name);
        return found;
      }
      testCase := NewTestCase(name);
    }

    method NewTestCase(name: CString) returns (testCase: TestCase)
      requires InOrder() && |testCases| < MAX_RANGE && !HasName(testCases, name)
      modifies this`testCases, this`indices, this`lastDeathTestCase
      ensures InOrder() && Valid() && Entries() == Opened(old(Entries()), name)
      ensures fresh(testCase) && testCase in testCases && testCase.name == name && testCase.tests == []
      ensures testCases == Registered(old(testCases), old(lastDeathTestCase) + 1, testCase, IsDeathTestCase(name))
      ensures lastDeathTestCase == old(lastDeathTestCase) + if IsDeathTestCase(name) then 1 else 0
    {
      hide Valid, IsPermutation, IsDeathTestCase, HasName, Registrations, Opened, Registered;
      testCase := new TestCase(name);
      var death := MatchesDeathTestFilter(name);
      Register(testCase, death);
    }

    method Register(testCase: TestCase, death: bool)
      requires death <==> IsDeathTestCase(testCase.name)
      requires InOrder() && |testCases| < MAX_RANGE && !HasName(testCases, testCase.name) && testCase.InOrder()
      requires testCase.tests == []
      modifies this`testCases, this`indices, this`lastDeathTestCase
      ensures InOrder() && Valid() && testCase in testCases && Entries() == Opened(old(Entries()), testCase.name)
      ensures testCases == Registered(old(testCases), old(lastDeathTestCase) + 1, testCase, IsDeathTestCase(testCase.name))
      ensures lastDeathTestCase == old(lastDeathTestCase) + if IsDeathTestCase(testCase.name) then 1 else 0
    {
      hide InOrder, IsDeathTestCase, HasName, Registrations, Opened, Registered, IsPermutation;
      CasesFit();
      RegisteredIsOpened(testCases, lastDeathTestCase + 1, testCase, death);
      ghost var cases, deaths, entries := testCases, lastDeathTestCase + 1, Entries();
      ghost var registered := Registrations(Registered(cases, deaths, testCase, death));
      Insert(testCase, death);
      assert Registrations(testCases) == registered;
      assert Registry(registered, lastDeathTestCase + 1) == Opened(entries, testCase.name);
    }

    lemma EntriesAre()
      requires Valid()
      ensures Entries() == Registry(Registrations(testCases), lastDeathTestCase + 1)
    {
    }

    lemma CasesFit()
      requires InOrder()
      ensures Valid() && 0 <= lastDeathTestCase + 1 <= |testCases|
    {
      hide IsDeathTestCase, IsPermutation;
    }

    method Insert(testCase: TestCase, death: bool)
      requires death <==> IsDeathTestCase(testCase.name)
      requires InOrder() && |testCases| < MAX_RANGE && !HasName(testCases, testCase.name) && testCase.InOrder()
      modifies this`testCases, this`indices, this`lastDeathTestCase
      ensures InOrder() && Valid() && testCase in testCases
      ensures testCases == Registered(old(testCases), old(lastDeathTestCase) + 1, testCase, IsDeathTestCase(testCase.name))
      ensures lastDeathTestCase == old(lastDeathTestCase) + if IsDeathTestCase(testCase.name) then 1 else 0
    {
      hide IsPermutation, WellRegistered, IsDeathTestCase, HasName;
      RoomForDeaths(testCases, lastDeathTestCase + 1);
      RegisteredIsWell(testCases, lastDeathTestCase + 1, testCase, death);
      if death {
        lastDeathTestCase := lastDeathTestCase + 1;
        testCases := testCases[..lastDeathTestCase] + [testCase] + testCases[lastDeathTestCase..];
      } else {
        testCases := testCases + [testCase];
      }
      IdentityIsPermutation(|testCases|);
      assert indices + [|indices|] == Identity(|testCases|);
      indices := indices + [|indices|];
    }

    /** What has been registered so far. */
    ghost function Entries(): Registry
      requires Valid()
      reads this, testCases
    {
      Registry(Registrations(testCases), lastDeathTestCase + 1)
    }

    /** Room for one more case, and for one more test in every case. */
    ghost predicate HasRoom()
      reads this, testCases
    {
      |testCases| < MAX_RANGE && forall c | c in testCases :: |c.tests| < MAX_RANGE
    }

    /** Registers a test in a case already found. */
    method AddTo(testCase: TestCase, info: TestInfo)
      requires InOrder() && testCase in testCases && |testCase.tests| < MAX_RANGE
      modifies testCase`tests, testCase`indices
      ensures InOrder() && Entries() == Added(old(Entries()), testCase.name, info.name)
    {
      hide IsPermutation, IsDeathTestCase, Registrations, Names, IndexOfCase, Added;
      ghost var before := Registrations(testCases);
      ghost var k :| 0 <= k < |testCases| && testCases[k] == testCase;
      DistinctNamesDistinctCases(testCases, lastDeathTestCase + 1);
      ghost var deaths := lastDeathTestCase + 1;
      testCase.AddTestInfo(info);
      NamesNext(testCase.tests);
      AddedIs(Registry(before, deaths), testCase.name, info.name, k, Registrations(testCases));
    }

    lemma EntriesAreWell()
      requires Valid()
      ensures Entries().deaths <= |Entries().cases| && NamesDiffer(Entries().cases)
    {
      hide IsDeathTestCase, IsPermutation;
    }

    /** Registers one test, with its case if that is new. */
    method AddTestInfo(caseName: CString, info: TestInfo)
      requires InOrder() && HasRoom()
      modifies this`testCases, this`indices, this`lastDeathTestCase, testCases`tests, testCases`indices
      ensures InOrder() && Entries() == Entered(old(Entries()), caseName, info.name)
      ensures forall c | c in testCases :: c in old(testCases) || fresh(c)
    {
      hide Valid, Entries, IsDeathTestCase, HasName, Opened, Added, Entered, NamesDiffer;
      ghost var before := Entries();
      EntriesAreWell();
      var testCase := GetTestCase(caseName);
      AddTo(testCase, info);
      OpenedThenAdded(before, caseName, info.name);
    }

    /** The test case at position i of the current order. */
    method GetMutableTestCase(i: int) returns (testCase: TestCase?)
      requires Valid()
      ensures if 0 <= i < |indices| then indices[i] < |testCases| && testCase == testCases[indices[i]] else testCase == null
    {
      if i < 0 || i >= |indices| {
        return null;
      }
      PermutationInRange(indices, i);
      testCase := testCases[indices[i]];
    }

    /** The current order of test cases and tests. */
    ghost function CurrentOrder(): Order
      reads this, testCases
    {
      Order(indices, TestOrders(testCases))
    }

    /** Names, tests and selection of the registered cases are as before. */
    twostate predicate OnlyOrdersChanged()
      reads this, testCases
    {
      && testCases == old(testCases) && lastDeathTestCase == old(lastDeathTestCase)
      && forall c | c in testCases :: c.tests == old(c.tests) && c.shouldRun == old(c.shouldRun)
    }

    /** Shuffles the death test cases, then the others, then the tests inside each test case. */
    method ShuffleTests()
      requires Valid()
      modifies this`indices, testCases`indices, random
      ensures Valid() && OnlyOrdersChanged()
      ensures (CurrentOrder(), random.state) == ShuffledOrder(old(random.state), old(CurrentOrder()), lastDeathTestCase + 1)
    {
      hide IsPermutation, Shuffled, ShuffledEach, IsDeathTestCase, WellRegistered, TestOrders;
      ghost var order, state := CurrentOrder(), random.state;
      RoomForDeaths(testCases, lastDeathTestCase + 1);
      ShuffleCases();
      assert TestOrders(testCases) == order.tests;
      ShuffleEach();
    }

    method ShuffleCases()
      requires Valid()
      modifies this`indices, random
      ensures Valid()
      ensures var deaths := lastDeathTestCase + 1;
              var (first, state1) := Shuffled(old(random.state), old(indices), 0, deaths);
              (indices, random.state) == Shuffled(state1, first, deaths, |old(indices)| - deaths)
    {
      hide Shuffled, IsPermutation, IsDeathTestCase, RearrangedWithin;
      var deaths := lastDeathTestCase + 1;
      ghost var (first, state1) := Shuffled(random.state, indices, 0, deaths);
      ShuffleRearranges(random.state, indices, 0, deaths);
      RearrangedIsPermutation(indices, first, 0, deaths);
      ShuffleRearranges(state1, first, deaths, |indices| - deaths);
      RearrangedIsPermutation(first, Shuffled(state1, first, deaths, |indices| - deaths).0, deaths, |indices|);
      indices := ShuffleRange(random, 0, deaths, indices);
      indices := ShuffleRange(random, deaths, |testCases|, indices);
    }

    method ShuffleEach()
      requires Valid()
      modifies testCases`indices, random
      ensures Valid()
      ensures (TestOrders(testCases), random.state) == ShuffledEach(old(random.state), old(TestOrders(testCases)))
      ensures forall c | c in testCases :: c.tests == old(c.tests) && c.shouldRun == old(c.shouldRun)
    {
      hide Shuffled, ShuffledEach, IsPermutation, IsDeathTestCase, TestOrders, RearrangedWithin;
      DistinctNamesDistinctCases(testCases, lastDeathTestCase + 1);
      ghost var before := TestOrders(testCases);
      ghost var done: seq<seq<nat>> := [];
      assert before[..0] == [] && ShuffledEach(random.state, []) == ([], random.state) by { ShuffledNone(random.state); }
      for i := 0 to |testCases|
        invariant forall c | c in testCases :: c.Valid()
        invariant forall k | i <= k < |testCases| :: testCases[k].indices == before[k]
        invariant |done| == i && forall k | 0 <= k < i :: testCases[k].indices == done[k]
        invariant (done, random.state) == ShuffledEach(old(random.state), before[..i])
        invariant forall c | c in testCases :: c.tests == old(c.tests) && c.shouldRun == old(c.shouldRun)
      {
        ShuffledNext(old(random.state), before, i);
        testCases[i].ShuffleTests(random);
        done := done + [testCases[i].indices];
      }
      assert before[..|testCases|] == before;
      assert TestOrders(testCases) == done;
    }

    method UnshuffleTests()
      requires Valid()
      modifies this`indices, testCases`indices
      ensures InOrder()
    {
      hide IsPermutation, IsDeathTestCase;
      DistinctNamesDistinctCases(testCases, lastDeathTestCase + 1);
      for i := 0 to |testCases|
        invariant |indices| == |testCases|
        invariant forall k | 0 <= k < i :: indices[k] == k
        invariant forall c | c in testCases :: c.Valid()
        invariant forall k | 0 <= k < i :: testCases[k].InOrder()
      {
        testCases[i].UnshuffleTests();
        indices := indices[i := i];
      }
      IdentityIsPermutation(|testCases|);
      assert indices == Identity(|testCases|);
    }

    /** Runs every test case through the current order. */
    method RunOnce() returns (visits: seq<Visit>)
      requires Valid()
      ensures visits == VisitsOf(CurrentOrder(), Selection(testCases))
    {
      hide IsPermutation, IsDeathTestCase, WellRegistered, Executed, VisitOf, TestOrders, Selection, ShouldRuns;
      ghost var order, selection := CurrentOrder(), Selection(testCases);
      AllInRange(order.cases);
      visits := [];
      for i := 0 to |testCases|
        invariant |visits| == i
        invariant forall k | 0 <= k < i :: visits[k] == VisitOf(order, selection, k)
      {
        var testCase := GetMutableTestCase(i);
        assert testCase in testCases;
        var tests := testCase.Run();
        VisitIs(order, selection, i);
        visits := visits + [Visit(indices[i], tests)];
      }
      assert |order.cases| == |testCases| && |order.tests| == |selection|;
      VisitsAre(order, selection, visits);
    }

    /** One iteration: reseed and shuffle if asked to, run, restore the order. */
    method RunIteration(shuffle: bool, seed: nat) returns (visits: seq<Visit>)
      requires InOrder()
      modifies this`indices, testCases`indices, random
      ensures InOrder() && OnlyOrdersChanged()
      ensures visits == IterationLog(shuffle, seed, Counts(testCases), lastDeathTestCase + 1, Selection(testCases))
    {
      hide InOrder, Valid, CurrentOrder, VisitsOf, IterationOrder, Counts, Selection, ShouldRuns, Identity;
      CasesFit();
      Arrange(shuffle, seed);
      visits := RunOnce();
      UnshuffleTests();
    }

    method Arrange(shuffle: bool, seed: nat)
      requires InOrder() && 0 <= lastDeathTestCase + 1 <= |testCases|
      modifies this`indices, testCases`indices, random
      ensures Valid() && OnlyOrdersChanged()
      ensures CurrentOrder() == IterationOrder(shuffle, seed, Counts(testCases), lastDeathTestCase + 1)
    {
      hide IsPermutation, IsDeathTestCase, WellRegistered, Counts, ShuffledOrder, TestOrders;
      InOrderIsRegistered();
      if shuffle {
        random.Reseed(seed);
        ShuffleTests();
      }
    }

    /** Noting which tests run changes neither the orders nor what is registered. */
    twostate lemma MarkingKeepsOrder()
      requires old(InOrder()) && testCases == old(testCases) && indices == old(indices) && lastDeathTestCase == old(lastDeathTestCase)
      requires Registrations(testCases) == old(Registrations(testCases))
      requires forall c | c in testCases :: c.indices == old(c.indices)
      ensures InOrder() && Valid() && old(Valid()) && Entries() == old(Entries())
    {
      hide IsPermutation, WellRegistered, Names, Identity;
      forall c | c in testCases ensures c.InOrder() {
        var k :| 0 <= k < |testCases| && testCases[k] == c;
        assert |Registrations(testCases)[k].tests| == |c.tests| == old(|c.tests|);
        assert old(c.InOrder());
      }
    }

    twostate lemma EntriesKept()
      requires old(Valid()) && Valid() && OnlyOrdersChanged()
      ensures Entries() == old(Entries())
    {
      hide Valid, Names;
      assert Registrations(testCases) == old(Registrations(testCases));
    }

    lemma InOrderIsRegistered()
      requires InOrder()
      ensures CurrentOrder() == RegisteredOrder(Counts(testCases))
    {
      hide IsPermutation, IsDeathTestCase, WellRegistered, Identity;
      var counts, orders := Counts(testCases), TestOrders(testCases);
      forall c | 0 <= c < |counts| ensures orders[c] == Identity(counts[c]) {
        assert testCases[c] in testCases && testCases[c].InOrder();
      }
    }

    /**
     The repeat loop.  Every iteration starts from registration order with a generator freshly seeded, so the log of an iteration is
     determined by its seed; afterwards the order is restored.
     */
    method RepeatTests(shuffle: bool, seedFlag: int, clock: nat, iterations: nat, hasTestsToRun: bool) returns (log: seq<seq<Visit>>)
      requires InOrder()
      modifies this`indices, testCases`indices, random
      ensures InOrder() && OnlyOrdersChanged()
      ensures |log| == iterations
      ensures var counts, deaths, selection := Counts(testCases), lastDeathTestCase + 1, Selection(testCases);
              forall i | 0 <= i < iterations ::
                log[i] == RepeatLog(hasTestsToRun, shuffle, seedFlag, clock, i, counts, deaths, selection)
    {
      hide IsPermutation, IsDeathTestCase, WellRegistered, IterationLog, SeedAt, GetRandomSeedFromFlag, Counts, Selection;
      ghost var counts, deaths, selection := Counts(testCases), lastDeathTestCase + 1, Selection(testCases);
      RoomForDeaths(testCases, deaths);
      var randomSeed: nat := if shuffle then GetRandomSeedFromFlag(seedFlag, clock) else 0;
      ghost var seed0 := GetRandomSeedFromFlag(seedFlag, clock);
      FirstSeed(seed0);
      log := [];
      for i := 0 to iterations
        invariant InOrder() && OnlyOrdersChanged()
        invariant Counts(testCases) == counts && Selection(testCases) == selection
        invariant shuffle ==> randomSeed == SeedAt(seed0, i)
        invariant |log| == i
        invariant forall k | 0 <= k < i :: log[k] == LogOf(hasTestsToRun, shuffle, SeedAt(seed0, k), counts, deaths, selection)
      {
        var visits := [];
        if hasTestsToRun {
          visits := RunIteration(shuffle, randomSeed);
          SeedOnlyMattersToShuffle(shuffle, randomSeed, SeedAt(seed0, i), counts, deaths, selection);
        }
        log := log + [visits];
        if shuffle {
          NextSeed(seed0, i);
          randomSeed := GetNextRandomSeed(randomSeed);
        }
      }
    }
  }

  ghost function Selection(cases: seq<TestCase>): (r: seq<Marks>)
    reads cases`shouldRun, cases`tests
    ensures |r| == |cases| && forall c | 0 <= c < |cases| :: r[c] == Marks(cases[c].shouldRun, ShouldRuns(cases[c].tests))
  {
    if cases == [] then []
    else Selection(cases[..|cases| - 1]) + [Marks(cases[|cases| - 1].shouldRun, ShouldRuns(cases[|cases| - 1].tests))]
  }

  ghost function Counts(cases: seq<TestCase>): (r: seq<nat>)
    reads cases`tests
    ensures |r| == |cases| && forall c | 0 <= c < |cases| :: r[c] == |cases[c].tests|
  {
    if cases == [] then [] else Counts(cases[..|cases| - 1]) + [|cases[|cases| - 1].tests|]
  }

  method MatchesDeathTestFilter(name: CString) returns (death: bool)
    ensures death <==> IsDeathTestCase(name)
  {
    death := Glob.MatchesFilter(name, DEATH_TEST_CASE_FILTER);
  }

  lemma RoomForDeaths(cases: seq<TestCase>, deaths: int)
    requires WellRegistered(cases, deaths)
    ensures 0 <= deaths <= |cases| <= MAX_RANGE
  {
  }

  ghost function TestOrders(cases: seq<TestCase>): (r: seq<seq<nat>>)
    reads cases`indices
    ensures |r| == |cases| && forall c | 0 <= c < |cases| :: r[c] == cases[c].indices
  {
    if cases == [] then [] else TestOrders(cases[..|cases| - 1]) + [cases[|cases| - 1].indices]
  }
}
