/** A whole test program: the tests are registered, filtered for one shard, and run as often as asked for. */
module TestProgram {
  import opened CText
  import opened Numbers
  import opened RandomOrder
  import opened Registry
  import opened Sharding
  import opened UnitTest
  import opened Visits

  // ---------------------------------------------------------------- registration

  lemma {:induction false} RegistryIsSmall(tests: seq<Declaration>)
    ensures var r := RegistryOf(tests);
            |r.cases| <= |tests| && forall k | 0 <= k < |r.cases| :: |r.cases[k].tests| <= |tests|
  {
    hide IndexOfCase, IsDeathTestCase;
    if tests != [] {
      var init, last := tests[..|tests| - 1], tests[|tests| - 1];
      RegistryIsSmall(init);
      var r := RegistryOf(init);
      if IndexOfCase(r.cases, last.testCase) == |r.cases| {
        NewCaseStands(r, last.testCase, last.test, if IsDeathTestCase(last.testCase) then r.deaths else |r.cases|);
      }
    }
  }

  /** Registers the tests one after the other, as the static initialisers of a program do. */
  method RegisterAll(tests: seq<Declaration>) returns (impl: UnitTestImpl)
    requires |tests| <= MAX_RANGE
    ensures fresh(impl) && fresh(impl.random) && impl.InOrder() && impl.Valid() && impl.Entries() == RegistryOf(tests)
    ensures forall c | c in impl.testCases :: fresh(c)
  {
    hide *;
    impl := new UnitTestImpl();
    RegistryOfNone(tests);
    for i := 0 to |tests|
      invariant fresh(impl) && fresh(impl.random) && impl.InOrder() && impl.Valid() && impl.Entries() == RegistryOf(tests[..i])
      invariant forall c | c in impl.testCases :: fresh(c)
    {
      RegistryIsSmall(tests[..i]);
      EntriesLeaveRoom(impl, i);
      RegistryNext(tests, i);
      forall k | 0 <= k < |impl.testCases| ensures fresh(impl.testCases[k]) {
        assert impl.testCases[k] in impl.testCases;
      }
      impl.AddTestInfo(tests[i].testCase, TestInfo(tests[i].test, false, false, false));
      OrderedIsValid(impl);
    }
    assert tests[..|tests|] == tests;
  }

  lemma OrderedIsValid(impl: UnitTestImpl)
    requires impl.InOrder()
    ensures impl.Valid()
  {
  }

  lemma RegistryOfNone(tests: seq<Declaration>)
    ensures RegistryOf(tests[..0]) == Registry([], 0)
  {
  }

  lemma {:induction false} RegistryNext(tests: seq<Declaration>, i: nat)
    requires i < |tests|
    ensures RegistryOf(tests[..i + 1]) == Entered(RegistryOf(tests[..i]), tests[i].testCase, tests[i].test)
  {
    hide Entered;
    assert tests[..i + 1][..i] == tests[..i];
  }

  lemma EntriesLeaveRoom(impl: UnitTestImpl, n: nat)
    requires impl.InOrder() && impl.Valid() && n < MAX_RANGE && |impl.Entries().cases| <= n
    requires forall k | 0 <= k < |impl.Entries().cases| :: |impl.Entries().cases[k].tests| <= n
    ensures impl.HasRoom()
  {
    hide IsPermutation, WellRegistered, IsDeathTestCase, Names;
    forall c | c in impl.testCases ensures |c.tests| < MAX_RANGE {
      var k :| 0 <= k < |impl.testCases| && impl.testCases[k] == c;
      assert |impl.Entries().cases[k].tests| == |c.tests|;
    }
  }

  // ---------------------------------------------------------------- what a program run amounts to

  function CountsOf(cases: seq<Registration>): (counts: seq<nat>)
    ensures |counts| == |cases| && forall c | 0 <= c < |cases| :: counts[c] == |cases[c].tests|
  {
    seq(|cases|, c requires 0 <= c < |cases| => |cases[c].tests|)
  }

  /** The number of test t of case c among the runnable tests. */
  ghost function NumberOf(o: Options, cases: seq<Registration>, c: nat, t: nat): nat
    requires c < |cases| && t < |cases[c].tests|
  {
    RunnableUpTo(o, cases, c) + RunnableBefore(o, cases[c].name, cases[c].tests, t)
  }

  /** A registered test that is neither disabled nor filtered out. */
  ghost predicate IsRunnable(o: Options, cases: seq<Registration>, c: nat, t: nat) {
    c < |cases| && t < |cases[c].tests| && Runnable(o, cases[c].name, cases[c].tests[t])
  }

  ghost predicate RunsHere(o: Options, p: Protocol, cases: seq<Registration>, c: nat, t: nat)
    requires IsProtocol(p)
  {
    IsRunnable(o, cases, c, t) && Here(p, NumberOf(o, cases, c, t))
  }

  ghost function MarksOf(o: Options, p: Protocol, cases: seq<Registration>, c: nat): Marks
    requires IsProtocol(p) && c < |cases|
  {
    Marks(exists t: nat :: RunsHere(o, p, cases, c, t), seq(|cases[c].tests|, t requires 0 <= t => RunsHere(o, p, cases, c, t)))
  }

  ghost function SelectionOf(o: Options, p: Protocol, cases: seq<Registration>): (selection: seq<Marks>)
    requires IsProtocol(p)
    ensures |selection| == |cases| && forall c | 0 <= c < |cases| :: selection[c] == MarksOf(o, p, cases, c)
  {
    seq(|cases|, c requires 0 <= c < |cases| => MarksOf(o, p, cases, c))
  }

  ghost function SelectedCount(o: Options, p: Protocol, cases: seq<Registration>): nat
    requires IsProtocol(p)
  {
    SelectedBelow(p, RunnableUpTo(o, cases, |cases|))
  }

  /** What the i-th iteration visits. */
  ghost function ProgramLog(r: Registry, o: Options, p: Protocol, shuffle: bool, seedFlag: int, clock: nat, i: nat): seq<Visit>
    requires IsProtocol(p)
  {
    RepeatLog(SelectedCount(o, p, r.cases) > 0, shuffle, seedFlag, clock, i, CountsOf(r.cases), r.deaths, SelectionOf(o, p, r.cases))
  }

  /** The shard a program is, or none when its environment makes it exit. */
  function ProtocolOf(env: Environment, inSubprocess: bool): (p: Option<Protocol>)
    ensures p.Some? ==> IsProtocol(p.value)
  {
    match ShouldShard(env, inSubprocess)
    case Fatal => None
    case NoSharding => Some(Ignore)
    case ShardTests => Some(Honor(Int32FromEnvOrDie(env.totalShards).value, Int32FromEnvOrDie(env.shardIndex).value))
  }

  /** The flags, the environment and the clock that a run starts with. */
  datatype Inputs = Inputs(options: Options, env: Environment, inSubprocess: bool, shuffle: bool, seedFlag: int, clock: nat, repeat: nat)

  /** A program as it is run: the tests it declares, and what it starts with. */
  datatype Program = Program(tests: seq<Declaration>, inputs: Inputs)

  datatype Outcome = Exited | Ran(log: seq<seq<Visit>>)

  ghost predicate IsOutcome(outcome: Outcome, r: Registry, x: Inputs) {
    match ProtocolOf(x.env, x.inSubprocess)
    case None => outcome == Exited
    case Some(p) =>
      && outcome.Ran? && |outcome.log| == (if x.inSubprocess then 1 else x.repeat)
      && forall i | 0 <= i < |outcome.log| ::
           outcome.log[i] == ProgramLog(r, x.options, p, x.shuffle, x.seedFlag, x.clock, i)
  }

  // ---------------------------------------------------------------- the program

  lemma CaseMarks(o: Options, p: Protocol, r: seq<Registration>, testCase: TestCase, c: nat)
    requires IsProtocol(p) && c < |r| && CaseJudged(o, p, r, testCase, c)
    ensures testCase.Noted() == MarksOf(o, p, r, c)
  {
    hide Runnable, Disabled, RunnableUpTo, RunnableBefore, Here;
    forall t: nat | t < |r[c].tests| ensures testCase.tests[t].shouldRun <==> RunsHere(o, p, r, c, t) {
      assert Judged(o, p, r[c].name, r[c].tests, RunnableUpTo(o, r, c), testCase.tests[t], t);
    }
  }

  /** FilterTests on the registry: nothing but the marks changes. */
  method Filter(impl: UnitTestImpl, o: Options, p: Protocol) returns (selected: nat)
    requires impl.InOrder() && impl.Valid() && IsProtocol(p)
    modifies impl.testCases`tests, impl.testCases`shouldRun
    ensures impl.InOrder() && impl.Valid() && impl.Entries() == old(impl.Entries())
    ensures Selection(impl.testCases) == SelectionOf(o, p, impl.Entries().cases)
    ensures selected == SelectedCount(o, p, impl.Entries().cases)
  {
    hide *;
    CasesDiffer(impl);
    selected := FilterTests(impl.testCases, o, p);
    impl.MarkingKeepsOrder();
    Filtered(impl, o, p);
  }

  lemma CasesDiffer(impl: UnitTestImpl)
    requires impl.Valid()
    ensures forall i, j | 0 <= i < j < |impl.testCases| :: impl.testCases[i] != impl.testCases[j]
  {
    DistinctNamesDistinctCases(impl.testCases, impl.lastDeathTestCase + 1);
  }

  lemma Filtered(impl: UnitTestImpl, o: Options, p: Protocol)
    requires impl.Valid() && IsProtocol(p)
    requires forall i | 0 <= i < |impl.testCases| :: CaseJudged(o, p, Registrations(impl.testCases), impl.testCases[i], i)
    ensures Selection(impl.testCases) == SelectionOf(o, p, impl.Entries().cases)
    ensures SelectedBelow(p, RunnableUpTo(o, Registrations(impl.testCases), |impl.testCases|)) == SelectedCount(o, p, impl.Entries().cases)
  {
    hide WellRegistered, IsPermutation, Names, CaseJudged, MarksOf, RunnableUpTo, SelectedBelow, MarkedIn, ShouldRuns, Registrations;
    ghost var r := Registrations(impl.testCases);
    forall c | 0 <= c < |r| ensures impl.testCases[c].Noted() == MarksOf(o, p, r, c) {
      CaseMarks(o, p, r, impl.testCases[c], c);
    }
    assert Selection(impl.testCases) == SelectionOf(o, p, r);
  }

  /** The repeat loop on the registry as it is described. */
  method Repeat(impl: UnitTestImpl, shuffle: bool, seedFlag: int, clock: nat, iterations: nat, hasTestsToRun: bool)
    returns (log: seq<seq<Visit>>)
    requires impl.InOrder() && impl.Valid()
    modifies impl`indices, impl.testCases`indices, impl.random
    ensures impl.InOrder() && impl.Valid() && impl.Entries() == old(impl.Entries())
    ensures |log| == iterations
    ensures var r, selection := old(impl.Entries()), old(Selection(impl.testCases));
            forall i | 0 <= i < iterations ::
              log[i] == RepeatLog(hasTestsToRun, shuffle, seedFlag, clock, i, CountsOf(r.cases), r.deaths, selection)
  {
    hide IsPermutation, WellRegistered, RepeatLog, Selection, Names, Counts, CountsOf, Registrations, ShouldRuns, Identity;
    CountsAre(impl.testCases);
    log := impl.RepeatTests(shuffle, seedFlag, clock, iterations, hasTestsToRun);
    impl.EntriesKept();
  }

  lemma CountsAre(cases: seq<TestCase>)
    ensures Counts(cases) == CountsOf(Registrations(cases))
  {
    hide Counts, Registrations, Names;
  }

  /** After the flags have been parsed: decide on sharding, filter, and repeat. */
  method RunAllTests(impl: UnitTestImpl, x: Inputs) returns (outcome: Outcome)
    requires impl.InOrder() && impl.Valid()
    modifies impl`indices, impl.testCases, impl.random
    ensures impl.InOrder() && impl.Valid() && impl.Entries() == old(impl.Entries())
    ensures IsOutcome(outcome, impl.Entries(), x)
  {
    hide *;
    var protocol := ProtocolOf(x.env, x.inSubprocess);
    if protocol == None {
      outcome := Exited;
      ExitsAtOnce(impl.Entries(), x);
      return;
    }
    var selected := Filter(impl, x.options, protocol.value);
    var iterations := if x.inSubprocess then 1 else x.repeat;
    var log := Repeat(impl, x.shuffle, x.seedFlag, x.clock, iterations, selected > 0);
    outcome := Ran(log);
    RunsToTheEnd(log, impl.Entries(), x);
  }

  lemma ExitsAtOnce(r: Registry, x: Inputs)
    requires ProtocolOf(x.env, x.inSubprocess) == None
    ensures IsOutcome(Exited, r, x)
  {
  }

  lemma RunsToTheEnd(log: seq<seq<Visit>>, r: Registry, x: Inputs)
    requires var protocol := ProtocolOf(x.env, x.inSubprocess);
      && protocol.Some? && |log| == (if x.inSubprocess then 1 else x.repeat)
      && forall i | 0 <= i < |log| ::
           log[i] == RepeatLog(SelectedCount(x.options, protocol.value, r.cases) > 0, x.shuffle, x.seedFlag, x.clock, i,
                               CountsOf(r.cases), r.deaths, SelectionOf(x.options, protocol.value, r.cases))
    ensures IsOutcome(Ran(log), r, x)
  {
    hide RepeatLog, SelectedCount, SelectionOf, ProtocolOf;
  }

  /** From the declarations to the log. */
  method RunProgram(program: Program) returns (outcome: Outcome)
    requires |program.tests| <= MAX_RANGE
    ensures IsOutcome(outcome, RegistryOf(program.tests), program.inputs)
  {
    hide *;
    var impl := RegisterAll(program.tests);
    forall k | 0 <= k < |impl.testCases| ensures fresh(impl.testCases[k]) {
      assert impl.testCases[k] in impl.testCases;
    }
    outcome := RunAllTests(impl, program.inputs);
  }

  // ---------------------------------------------------------------- which tests run where, and how often

  lemma {:induction false} NumberBelowCase(o: Options, testCase: string, names: seq<string>, t: nat, n: nat)
    requires t < n <= |names| && Runnable(o, testCase, names[t])
    ensures RunnableBefore(o, testCase, names, t) < RunnableBefore(o, testCase, names, n)
  {
    hide Runnable;
    if t < n - 1 { NumberBelowCase(o, testCase, names, t, n - 1); }
  }

  lemma {:induction false} NumberBelow(o: Options, cases: seq<Registration>, c: nat, t: nat, n: nat)
    requires c < n <= |cases| && IsRunnable(o, cases, c, t)
    ensures NumberOf(o, cases, c, t) < RunnableUpTo(o, cases, n)
  {
    hide Runnable;
    if c < n - 1 {
      NumberBelow(o, cases, c, t, n - 1);
    } else {
      NumberBelowCase(o, cases[c].name, cases[c].tests, t, |cases[c].tests|);
    }
  }

  lemma {:induction false} SomethingSelected(p: Protocol, id: nat, n: nat)
    requires IsProtocol(p) && id < n && Here(p, id)
    ensures SelectedBelow(p, n) > 0
  {
    hide Here;
    if id < n - 1 { SomethingSelected(p, id, n - 1); }
  }

  lemma SelectedIsRunsHere(o: Options, p: Protocol, cases: seq<Registration>, c: nat, t: nat)
    requires IsProtocol(p)
    ensures IsSelectedTest(SelectionOf(o, p, cases), c, t) <==> RunsHere(o, p, cases, c, t)
    ensures MarksFit(CountsOf(cases), SelectionOf(o, p, cases))
  {
    hide Runnable, Here, NumberOf;
  }

  /** In every iteration, whatever the seed and the order, a test runs once if it is runnable and its number belongs here, else never. */
  lemma {:induction false} RunsOnceOrNever(r: Registry, o: Options, p: Protocol, shuffle: bool, seedFlag: int, clock: nat, i: nat, c: nat, t: nat)
    requires IsProtocol(p) && r.deaths <= |r.cases|
    ensures Times(ProgramLog(r, o, p, shuffle, seedFlag, clock, i), c, t) == if RunsHere(o, p, r.cases, c, t) then 1 else 0
  {
    hide Times, IterationLog, SeedAt, GetRandomSeedFromFlag, SelectionOf, CountsOf, Runnable, Here, NumberOf, RunnableUpTo, SelectedBelow;
    SelectedIsRunsHere(o, p, r.cases, c, t);
    if SelectedCount(o, p, r.cases) > 0 {
      var seed := SeedAt(GetRandomSeedFromFlag(seedFlag, clock), i);
      IterationRunsSelectedOnce(shuffle, seed, CountsOf(r.cases), r.deaths, SelectionOf(o, p, r.cases), c, t);
    } else {
      NothingRun(c, t);
      if RunsHere(o, p, r.cases, c, t) {
        NumberBelow(o, r.cases, c, t, |r.cases|);
        SomethingSelected(p, NumberOf(o, r.cases, c, t), RunnableUpTo(o, r.cases, |r.cases|));
      }
    }
  }

  lemma NothingRun(c: nat, t: nat)
    ensures Times([], c, t) == 0
  {
  }

  /** The test runs so many times in every iteration of every run of the shard, shuffled or not. */
  ghost predicate AlwaysRuns(r: Registry, o: Options, p: Protocol, c: nat, t: nat, times: nat)
    requires IsProtocol(p)
  {
    forall shuffle: bool, seedFlag: int, clock: nat, i: nat :: Times(ProgramLog(r, o, p, shuffle, seedFlag, clock, i), c, t) == times
  }

  lemma AlwaysRunsIff(r: Registry, o: Options, p: Protocol, c: nat, t: nat)
    requires IsProtocol(p) && r.deaths <= |r.cases|
    ensures AlwaysRuns(r, o, p, c, t, if RunsHere(o, p, r.cases, c, t) then 1 else 0)
  {
    hide RunsHere, Times, ProgramLog;
    forall shuffle: bool, seedFlag: int, clock: nat, i: nat
      ensures Times(ProgramLog(r, o, p, shuffle, seedFlag, clock, i), c, t) == if RunsHere(o, p, r.cases, c, t) then 1 else 0
    {
      RunsOnceOrNever(r, o, p, shuffle, seedFlag, clock, i, c, t);
    }
  }

  /**
   Over all shards of a program every runnable test runs on exactly one of them, there exactly once in every iteration; a test that is
   not runnable runs nowhere.  The shards may be shuffled and seeded each in its own way.
   */
  lemma {:induction false} EachTestRunsOnOneShard(tests: seq<Declaration>, o: Options, totalShards: nat, c: nat, t: nat)
    requires totalShards > 0
    ensures var r := RegistryOf(tests);
            if IsRunnable(o, r.cases, c, t) then
              exists s :: 0 <= s < totalShards && AlwaysRuns(r, o, Honor(totalShards, s), c, t, 1)
                          && forall s' | 0 <= s' < totalShards && s' != s :: AlwaysRuns(r, o, Honor(totalShards, s'), c, t, 0)
            else forall s | 0 <= s < totalShards :: AlwaysRuns(r, o, Honor(totalShards, s), c, t, 0)
  {
    hide AlwaysRuns, Runnable, Here, NumberOf, RegistryOf;
    var r := RegistryOf(tests);
    forall s | 0 <= s < totalShards
      ensures AlwaysRuns(r, o, Honor(totalShards, s), c, t, if RunsHere(o, Honor(totalShards, s), r.cases, c, t) then 1 else 0)
    {
      AlwaysRunsIff(r, o, Honor(totalShards, s), c, t);
    }
    if IsRunnable(o, r.cases, c, t) {
      var id := NumberOf(o, r.cases, c, t);
      ExactlyOneShard(totalShards, id);
      var s :| 0 <= s < totalShards && Here(Honor(totalShards, s), id);
      assert RunsHere(o, Honor(totalShards, s), r.cases, c, t);
      forall s' | 0 <= s' < totalShards && s' != s ensures AlwaysRuns(r, o, Honor(totalShards, s'), c, t, 0) {
        assert !Here(Honor(totalShards, s'), id);
      }
    }
  }

  // ---------------------------------------------------------------- whole programs, by their environment

  function ShardEnvironment(totalShards: nat, shardIndex: nat): Environment {
    Environment(Some(Streamed(totalShards)), Some(Streamed(shardIndex)))
  }

  /** A process is the shard its environment names; a single shard, or no variables at all, or a death test, is everything. */
  lemma EnvironmentNamesShard(totalShards: nat, shardIndex: nat, env: Environment)
    requires shardIndex < totalShards <= INT_MAX
    ensures ProtocolOf(ShardEnvironment(totalShards, shardIndex), false)
         == Some(if totalShards == 1 then Ignore else Honor(totalShards, shardIndex))
    ensures ProtocolOf(Environment(None, None), false) == Some(Ignore)
    ensures ProtocolOf(env, true) == Some(Ignore)
  {
    hide ParseInt32, Streamed;
    ParseInt32Reads(totalShards);
    ParseInt32Reads(shardIndex);
  }

  /** What a variable stands for: -1 when it is not set, else the number it is, if it is one. */
  predicate StandsFor(variable: Option<string>, n: int) {
    if variable == None then n == -1 else ParseInt32(variable.value) == Some(n)
  }

  /** A program exits before it runs anything exactly when its two variables do not stand for a shard, or for none. */
  lemma ExitsIff(outcome: Outcome, r: Registry, x: Inputs)
    requires IsOutcome(outcome, r, x)
    ensures outcome == Exited <==>
              !x.inSubprocess && forall n, s | StandsFor(x.env.totalShards, n) && StandsFor(x.env.shardIndex, s) :: !AreConsistent(n, s)
    ensures AreConsistent(-1, -1) && forall n: nat, s: int :: AreConsistent(n, s) <==> 0 <= s < n
  {
    hide ParseInt32;
    var total, index := Int32FromEnvOrDie(x.env.totalShards), Int32FromEnvOrDie(x.env.shardIndex);
    if total.Some? && index.Some? {
      assert StandsFor(x.env.totalShards, total.value) && StandsFor(x.env.shardIndex, index.value);
    }
  }

  /** In every iteration of the log the test runs so many times. */
  ghost predicate RunsThroughout(outcome: Outcome, c: nat, t: nat, times: nat) {
    outcome.Ran? && forall i | 0 <= i < |outcome.log| :: Times(outcome.log[i], c, t) == times
  }

  lemma OutcomeRuns(outcome: Outcome, r: Registry, x: Inputs, p: Protocol, c: nat, t: nat)
    requires r.deaths <= |r.cases| && ProtocolOf(x.env, x.inSubprocess) == Some(p) && IsOutcome(outcome, r, x)
    ensures RunsThroughout(outcome, c, t, if RunsHere(x.options, p, r.cases, c, t) then 1 else 0)
    ensures |outcome.log| == if x.inSubprocess then 1 else x.repeat
  {
    hide ProtocolOf, ProgramLog, Times, RunsHere;
    forall i | 0 <= i < |outcome.log|
      ensures Times(outcome.log[i], c, t) == if RunsHere(x.options, p, r.cases, c, t) then 1 else 0
    {
      RunsOnceOrNever(r, x.options, p, x.shuffle, x.seedFlag, x.clock, i, c, t);
    }
  }

  /**
   The i-th iteration of a program, if any test runs at all, visits the cases, and the tests of each, in the order that the i-th seed
   after the first one determines: in registration order unless the shuffle flag is set.
   */
  lemma {:induction false} ProgramKeepsOrder(r: Registry, x: Inputs, outcome: Outcome, i: nat, k: nat)
    requires r.deaths <= |r.cases| && IsOutcome(outcome, r, x) && outcome.Ran? && i < |outcome.log| && outcome.log[i] != []
    requires k < |r.cases|
    ensures var visits := outcome.log[i];
            var order := IterationOrder(x.shuffle, SeedAt(GetRandomSeedFromFlag(x.seedFlag, x.clock), i), CountsOf(r.cases), r.deaths);
            && |visits| == |r.cases| == |order.cases| == |order.tests| && visits[k].testCase == order.cases[k] < |r.cases|
            && (exists at :: IsSubsequence(visits[k].tests, order.tests[order.cases[k]], at))
            && (!x.shuffle ==> visits[k].testCase == k && Ascending(visits[k].tests))
  {
    hide ProtocolOf, SelectedBelow, RunnableUpTo, IterationLog, IterationOrder, SeedAt, GetRandomSeedFromFlag, CountsOf, SelectionOf, Ascending, IsSubsequence;
    var p := ProtocolOf(x.env, x.inSubprocess).value;
    var seed := SeedAt(GetRandomSeedFromFlag(x.seedFlag, x.clock), i);
    IterationKeepsOrder(x.shuffle, seed, CountsOf(r.cases), r.deaths, SelectionOf(x.options, p, r.cases), k);
  }

  /** Without the variables, and inside a death test, every runnable test runs once in every iteration, and no other test runs. */
  lemma {:induction false} UnshardedProgram(program: Program, outcome: Outcome, c: nat, t: nat)
    requires program.inputs.inSubprocess || program.inputs.env == Environment(None, None)
    requires IsOutcome(outcome, RegistryOf(program.tests), program.inputs)
    ensures var r := RegistryOf(program.tests);
            RunsThroughout(outcome, c, t, if IsRunnable(program.inputs.options, r.cases, c, t) then 1 else 0)
    ensures |outcome.log| == if program.inputs.inSubprocess then 1 else program.inputs.repeat
  {
    hide IsOutcome, RunsThroughout, ProtocolOf, IsRunnable, RegistryOf, NumberOf;
    EnvironmentNamesShard(1, 0, program.inputs.env);
    OutcomeRuns(outcome, RegistryOf(program.tests), program.inputs, Ignore, c, t);
  }

  /** Runs of one program, the s-th with the variables of shard s; everything else may differ from run to run but the flags that select. */
  ghost predicate AreShards(tests: seq<Declaration>, o: Options, inputs: seq<Inputs>, outcomes: seq<Outcome>) {
    && |inputs| == |outcomes| > 0
    && forall s | 0 <= s < |inputs| :: IsShard(tests, o, |inputs|, s, inputs[s], outcomes[s])
  }

  ghost predicate IsShard(tests: seq<Declaration>, o: Options, totalShards: nat, s: nat, x: Inputs, outcome: Outcome) {
    && x.options == o && !x.inSubprocess && x.env == ShardEnvironment(totalShards, s)
    && IsOutcome(outcome, RegistryOf(tests), x)
  }

  /**
   Over the processes of a sharded program every runnable test runs in exactly one of them, there exactly once in every iteration; a test
   that is not runnable runs in none.
   */
  lemma {:induction false} ShardedProgram(tests: seq<Declaration>, o: Options, inputs: seq<Inputs>, outcomes: seq<Outcome>, c: nat, t: nat)
    requires AreShards(tests, o, inputs, outcomes) && |inputs| <= INT_MAX
    ensures forall s | 0 <= s < |outcomes| :: outcomes[s].Ran? && |outcomes[s].log| == inputs[s].repeat
    ensures if IsRunnable(o, RegistryOf(tests).cases, c, t) then
              exists s :: 0 <= s < |outcomes| && RunsThroughout(outcomes[s], c, t, 1)
                          && forall s' | 0 <= s' < |outcomes| && s' != s :: RunsThroughout(outcomes[s'], c, t, 0)
            else forall s | 0 <= s < |outcomes| :: RunsThroughout(outcomes[s], c, t, 0)
  {
    hide RunsThroughout, Runnable, Here, NumberOf, RegistryOf, IsOutcome, ProtocolOf, ShardEnvironment;
    var n, r := |inputs|, RegistryOf(tests);
    forall s | 0 <= s < n
      ensures RunsThroughout(outcomes[s], c, t, if RunsHere(o, Honor(n, s), r.cases, c, t) then 1 else 0)
      ensures outcomes[s].Ran? && |outcomes[s].log| == inputs[s].repeat
    {
      assert IsShard(tests, o, n, s, inputs[s], outcomes[s]);
      OneShard(tests, o, n, s, inputs[s], outcomes[s], c, t);
    }
    if IsRunnable(o, r.cases, c, t) {
      var id := NumberOf(o, r.cases, c, t);
      ExactlyOneShard(n, id);
      var s :| 0 <= s < n && Here(Honor(n, s), id);
      assert RunsHere(o, Honor(n, s), r.cases, c, t);
      forall s' | 0 <= s' < n && s' != s ensures RunsThroughout(outcomes[s'], c, t, 0) {
        assert !Here(Honor(n, s'), id);
      }
    }
  }

  lemma {:induction false} OneShard(tests: seq<Declaration>, o: Options, n: nat, s: nat, x: Inputs, outcome: Outcome, c: nat, t: nat)
    requires s < n <= INT_MAX && IsShard(tests, o, n, s, x, outcome)
    ensures RunsThroughout(outcome, c, t, if RunsHere(o, Honor(n, s), RegistryOf(tests).cases, c, t) then 1 else 0)
    ensures outcome.Ran? && |outcome.log| == x.repeat
  {
    hide RunsThroughout, Runnable, NumberOf, RegistryOf, IsOutcome, ProtocolOf, ShardEnvironment;
    var r := RegistryOf(tests);
    EnvironmentNamesShard(n, s, x.env);
    OutcomeRuns(outcome, r, x, if n == 1 then Ignore else Honor(n, s), c, t);
    if n == 1 { OnlyShard(o, r.cases, c, t); }
    RanOutcome(outcome, c, t, if RunsHere(o, Honor(n, s), r.cases, c, t) then 1 else 0);
  }

  lemma RanOutcome(outcome: Outcome, c: nat, t: nat, times: nat)
    requires RunsThroughout(outcome, c, t, times)
    ensures outcome.Ran?
  {
  }

  /** A single shard is everything. */
  lemma OnlyShard(o: Options, cases: seq<Registration>, c: nat, t: nat)
    ensures RunsHere(o, Ignore, cases, c, t) <==> RunsHere(o, Honor(1, 0), cases, c, t)
  {
    hide Runnable, NumberOf;
  }

  /** Every declared test is registered, in a case of its name. */
  lemma {:induction false} DeclaredIsRegistered(tests: seq<Declaration>, j: nat) returns (c: nat, t: nat)
    requires j < |tests|
    ensures var r := RegistryOf(tests);
            c < |r.cases| && r.cases[c].name == tests[j].testCase && t < |r.cases[c].tests| && r.cases[c].tests[t] == tests[j].test
  {
    hide IndexOfCase, RegistryOf, TestsOf, IsDeathTestCase;
    RegistryIsRight(tests);
    var r := RegistryOf(tests);
    c := IndexOfCase(r.cases, tests[j].testCase);
    assert CaseIsRight(tests, r, c);
    t := PlaceOf(tests, j);
  }

  lemma {:induction false} PlaceOf(tests: seq<Declaration>, j: nat) returns (t: nat)
    requires j < |tests|
    ensures t < |TestsOf(tests, tests[j].testCase)| && TestsOf(tests, tests[j].testCase)[t] == tests[j].test
  {
    var last := |tests| - 1;
    if j < last {
      t := PlaceOf(tests[..last], j);
    } else {
      t := |TestsOf(tests[..last], tests[j].testCase)|;
    }
  }
}
