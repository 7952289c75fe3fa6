/** What an iteration of the repeat loop visits: every case in the order of the iteration, of each case the tests marked to run. */
module Visits {
  import opened RandomOrder

  /** What FilterTests has noted: whether the case runs, and which of its tests. */
  datatype Marks = Marks(caseRuns: bool, testRuns: seq<bool>)

  predicate IsMarked(marks: seq<bool>, t: nat) { t < |marks| && marks[t] }

  /** Of the first n tests in order, those that are marked. */
  function ExecutedUpTo(order: seq<nat>, marks: seq<bool>, n: nat): seq<nat>
    requires n <= |order|
  {
    if n == 0 then [] else ExecutedUpTo(order, marks, n - 1) + if IsMarked(marks, order[n - 1]) then [order[n - 1]] else []
  }

  function Executed(order: seq<nat>, marks: Marks): seq<nat> {
    if marks.caseRuns then ExecutedUpTo(order, marks.testRuns, |order|) else []
  }

  lemma NoneExecuted(order: seq<nat>, marks: Marks)
    ensures ExecutedUpTo(order, marks.testRuns, 0) == []
  {
  }

  lemma OneExecuted(order: seq<nat>, marks: Marks, i: nat)
    requires i < |order|
    ensures ExecutedUpTo(order, marks.testRuns, i + 1)
         == ExecutedUpTo(order, marks.testRuns, i) + if IsMarked(marks.testRuns, order[i]) then [order[i]] else []
  {
  }

  lemma {:induction false} ExecutedCount(order: seq<nat>, marks: seq<bool>, n: nat, t: nat)
    requires n <= |order|
    ensures multiset(ExecutedUpTo(order, marks, n))[t] == if IsMarked(marks, t) then multiset(order[..n])[t] else 0
  {
    hide IsMarked, ExecutedUpTo;
    if n == 0 {
      NoneExecuted(order, Marks(true, marks));
      assert order[..0] == [];
    } else {
      ExecutedCount(order, marks, n - 1, t);
      OneExecuted(order, Marks(true, marks), n - 1);
      OneMoreCount(order[..n - 1], order[n - 1], t);
      OneMoreCount(ExecutedUpTo(order, marks, n - 1), order[n - 1], t);
      assert order[..n] == order[..n - 1] + [order[n - 1]];
      Unchanged(ExecutedUpTo(order, marks, n - 1));
    }
  }

  lemma Unchanged(s: seq<nat>)
    ensures s + [] == s
  {
  }

  lemma OneMoreCount(s: seq<nat>, x: nat, t: nat)
    ensures multiset(s + [x])[t] == multiset(s)[t] + if x == t then 1 else 0
  {
  }

  /** In any order of its tests a selected case runs every marked test exactly once, and no other. */
  lemma ExecutedOnce(order: seq<nat>, marks: Marks, t: nat)
    requires IsPermutation(order) && |order| == |marks.testRuns|
    ensures multiset(Executed(order, marks))[t] == if marks.caseRuns && IsMarked(marks.testRuns, t) then 1 else 0
  {
    hide ExecutedUpTo;
    if marks.caseRuns {
      ExecutedCount(order, marks.testRuns, |order|, t);
      assert order[..|order|] == order;
      PermutationCount(order, t);
    }
  }

  /** The elements of some at ascending places of all. */
  ghost predicate IsSubsequence(some: seq<nat>, all: seq<nat>, at: seq<nat>) {
    && |at| == |some|
    && (forall j, k | 0 <= j < k < |at| :: at[j] < at[k])
    && forall k | 0 <= k < |at| :: at[k] < |all| && some[k] == all[at[k]]
  }

  lemma OneMorePlace(some: seq<nat>, all: seq<nat>, at: seq<nat>, x: nat)
    requires IsSubsequence(some, all, at)
    ensures IsSubsequence(some, all + [x], at) && IsSubsequence(some + [x], all + [x], at + [|all|])
  {
  }

  lemma {:induction false} ExecutedAt(order: seq<nat>, marks: seq<bool>, n: nat) returns (at: seq<nat>)
    requires n <= |order|
    ensures IsSubsequence(ExecutedUpTo(order, marks, n), order[..n], at)
  {
    hide IsMarked, IsSubsequence, ExecutedUpTo;
    at := [];
    NoneExecuted(order, Marks(true, marks));
    NothingAtNowhere(order[..0]);
    if n > 0 {
      at := ExecutedAt(order, marks, n - 1);
      var before, x := ExecutedUpTo(order, marks, n - 1), order[n - 1];
      OneMorePlace(before, order[..n - 1], at, x);
      assert order[..n] == order[..n - 1] + [x];
      OneExecuted(order, Marks(true, marks), n - 1);
      Unchanged(before);
      if IsMarked(marks, x) { at := at + [n - 1]; }
    }
  }

  lemma NothingAtNowhere(all: seq<nat>)
    ensures IsSubsequence([], all, [])
  {
  }

  /** The tests that run do so in the order given. */
  lemma ExecutedInOrder(order: seq<nat>, marks: Marks)
    ensures exists at :: IsSubsequence(Executed(order, marks), order, at)
  {
    if marks.caseRuns {
      var at := ExecutedAt(order, marks.testRuns, |order|);
      assert order[..|order|] == order;
      assert IsSubsequence(Executed(order, marks), order, at);
    } else {
      assert IsSubsequence(Executed(order, marks), order, []);
    }
  }

  lemma PermutationCount(s: seq<nat>, t: nat)
    requires IsPermutation(s)
    ensures multiset(s)[t] == if t < |s| then 1 else 0
  {
    IdentityCount(|s|, t);
  }

  lemma {:induction false} IdentityCount(n: nat, t: nat)
    ensures multiset(Identity(n))[t] == if t < n then 1 else 0
  {
    if n > 0 {
      IdentityCount(n - 1, t);
      assert Identity(n) == Identity(n - 1) + [n - 1];
    }
  }

  /** What one iteration visits when it starts from the given seed. */
  ghost function IterationLog(shuffle: bool, seed: nat, counts: seq<nat>, deaths: int, selection: seq<Marks>): seq<Visit> {
    if 0 <= deaths <= |counts| then VisitsOf(IterationOrder(shuffle, seed, counts, deaths), selection) else []
  }

  ghost function LogOf(hasTestsToRun: bool, shuffle: bool, seed: nat, counts: seq<nat>, deaths: int, selection: seq<Marks>): seq<Visit> {
    if hasTestsToRun then IterationLog(shuffle, seed, counts, deaths, selection) else []
  }

  lemma SeedOnlyMattersToShuffle(shuffle: bool, seed: nat, seed': nat, counts: seq<nat>, deaths: int, selection: seq<Marks>)
    requires shuffle ==> seed == seed'
    ensures IterationLog(shuffle, seed, counts, deaths, selection) == IterationLog(shuffle, seed', counts, deaths, selection)
  {
  }

  // ---------------------------------------------------------------- what an iteration visits

  /** One test case run, by its registration number, with the numbers of its tests in the order they ran. */
  datatype Visit = Visit(testCase: nat, tests: seq<nat>)

  function VisitOf(order: Order, selection: seq<Marks>, k: nat): Visit
    requires k < |order.cases| && order.cases[k] < |order.tests| == |selection|
  {
    var c := order.cases[k];
    Visit(c, Executed(order.tests[c], selection[c]))
  }

  /** An order that names no case outside its tests runs each of its cases in turn. */
  ghost function VisitsOf(order: Order, selection: seq<Marks>): seq<Visit> {
    if |order.tests| == |selection| && forall k | 0 <= k < |order.cases| :: order.cases[k] < |order.tests| then
      seq(|order.cases|, k requires 0 <= k < |order.cases| && order.cases[k] < |order.tests| => VisitOf(order, selection, k))
    else []
  }

  lemma VisitIs(order: Order, selection: seq<Marks>, k: nat)
    requires k < |order.cases| && order.cases[k] < |order.tests| == |selection|
    ensures VisitOf(order, selection, k) == Visit(order.cases[k], Executed(order.tests[order.cases[k]], selection[order.cases[k]]))
  {
  }

  lemma VisitsAre(order: Order, selection: seq<Marks>, visits: seq<Visit>)
    requires |order.tests| == |selection| && (forall k | 0 <= k < |order.cases| :: order.cases[k] < |order.tests|)
    requires |visits| == |order.cases| && forall k | 0 <= k < |visits| :: visits[k] == VisitOf(order, selection, k)
    ensures visits == VisitsOf(order, selection)
  {
    hide VisitOf;
  }

  lemma AllInRange(s: seq<nat>)
    requires IsPermutation(s)
    ensures forall i | 0 <= i < |s| :: s[i] < |s|
  {
    hide IsPermutation;
    forall i | 0 <= i < |s| ensures s[i] < |s| { PermutationInRange(s, i); }
  }

  lemma FirstSeed(seed: nat)
    requires 1 <= seed <= MAX_RANDOM_SEED
    ensures SeedAt(seed, 0) == seed
  {
  }

  lemma NextSeed(seed: nat, n: nat)
    requires 1 <= seed <= MAX_RANDOM_SEED
    ensures SeedAt(seed, n + 1) == GetNextRandomSeed(SeedAt(seed, n))
  {
  }

  lemma PermutationInRange(s: seq<nat>, i: nat)
    requires IsPermutation(s) && i < |s|
    ensures s[i] < |s|
  {
    assert s[i] in multiset(s);
    assert s[i] in Identity(|s|);
  }

  /** How often an iteration runs test t of case c. */
  function Times(visits: seq<Visit>, c: nat, t: nat): nat {
    if visits == [] then 0
    else
      var last := visits[|visits| - 1];
      Times(visits[..|visits| - 1], c, t) + if last.testCase == c then multiset(last.tests)[t] else 0
  }

  lemma {:induction false} TimesOfEqualVisits(visits: seq<Visit>, c: nat, t: nat, runs: bool)
    requires forall k | 0 <= k < |visits| && visits[k].testCase == c :: multiset(visits[k].tests)[t] == if runs then 1 else 0
    ensures Times(visits, c, t) == if runs then multiset(VisitedCases(visits))[c] else 0
  {
    if visits != [] {
      TimesOfEqualVisits(visits[..|visits| - 1], c, t, runs);
    }
  }

  ghost predicate IsSelectedTest(selection: seq<Marks>, c: nat, t: nat) {
    c < |selection| && selection[c].caseRuns && IsMarked(selection[c].testRuns, t)
  }

  /** The marks are as many as there are cases and tests. */
  ghost predicate MarksFit(counts: seq<nat>, selection: seq<Marks>) {
    |counts| == |selection| && forall c | 0 <= c < |counts| :: |selection[c].testRuns| == counts[c]
  }

  /** Every registered case is visited once, death test cases first. */
  lemma IterationVisitsEverything(shuffle: bool, seed: nat, counts: seq<nat>, deaths: nat, selection: seq<Marks>)
    requires deaths <= |counts| == |selection|
    ensures var visits := IterationLog(shuffle, seed, counts, deaths, selection);
            && |visits| == |counts|
            && IsPermutation(VisitedCases(visits))
            && (forall k | 0 <= k < |visits| :: k < deaths <==> visits[k].testCase < deaths)
            && (forall k | 0 <= k < |visits| :: visits[k].testCase < |counts|)
  {
    hide IsPermutation, IterationOrder, Executed;
    IterationIsComplete(shuffle, seed, counts, deaths);
    var order := IterationOrder(shuffle, seed, counts, deaths);
    forall k | 0 <= k < |order.cases| ensures order.cases[k] < |order.tests| {
      PermutationInRange(order.cases, k);
    }
    assert VisitedCases(VisitsOf(order, selection)) == order.cases;
  }

  ghost predicate Ascending(s: seq<nat>) { forall i, j | 0 <= i < j < |s| :: s[i] < s[j] }

  /** The cases and the tests of each case run in the order of the iteration: that of registration, unless it is shuffled. */
  lemma IterationKeepsOrder(shuffle: bool, seed: nat, counts: seq<nat>, deaths: nat, selection: seq<Marks>, k: nat)
    requires deaths <= |counts| == |selection| && k < |counts|
    ensures var visits, order := IterationLog(shuffle, seed, counts, deaths, selection), IterationOrder(shuffle, seed, counts, deaths);
            && |visits| == |counts| == |order.cases| == |order.tests| && visits[k].testCase == order.cases[k] < |counts|
            && (exists at :: IsSubsequence(visits[k].tests, order.tests[order.cases[k]], at))
            && (!shuffle ==> visits[k].testCase == k && Ascending(visits[k].tests))
  {
    hide IsPermutation, IterationOrder, Executed, IsSubsequence, Ascending, CasesOrdered;
    IterationVisitsEverything(shuffle, seed, counts, deaths, selection);
    IterationIsComplete(shuffle, seed, counts, deaths);
    var order := IterationOrder(shuffle, seed, counts, deaths);
    InRangeOfCases(order, counts, deaths);
    ExecutedInOrder(order.tests[order.cases[k]], selection[order.cases[k]]);
    if !shuffle {
      RegisteredIs(seed, counts, deaths, k);
      SubsequenceAscends(Executed(order.tests[k], selection[k]), order.tests[k]);
    }
  }

  lemma InRangeOfCases(order: Order, counts: seq<nat>, deaths: nat)
    requires IsComplete(order, counts, deaths)
    ensures |order.cases| == |order.tests| == |counts| && forall j | 0 <= j < |order.cases| :: order.cases[j] < |order.tests|
  {
    hide IsPermutation;
    AllInRange(order.cases);
  }

  lemma RegisteredIs(seed: nat, counts: seq<nat>, deaths: nat, k: nat)
    requires deaths <= |counts| && k < |counts|
    ensures var order := IterationOrder(false, seed, counts, deaths); order.cases[k] == k && order.tests[k] == Identity(counts[k])
  {
  }

  lemma SubsequenceAscends(some: seq<nat>, all: seq<nat>)
    requires (exists at :: IsSubsequence(some, all, at)) && all == Identity(|all|)
    ensures Ascending(some)
  {
  }

  /** In every iteration, shuffled or not, each test that is selected runs exactly once, and no other test runs. */
  lemma IterationRunsSelectedOnce(shuffle: bool, seed: nat, counts: seq<nat>, deaths: nat, selection: seq<Marks>, c: nat, t: nat)
    requires deaths <= |counts| && MarksFit(counts, selection)
    ensures Times(IterationLog(shuffle, seed, counts, deaths, selection), c, t) == if IsSelectedTest(selection, c, t) then 1 else 0
  {
    hide IsPermutation, IterationOrder, Executed, Times;
    var visits := IterationLog(shuffle, seed, counts, deaths, selection);
    IterationVisitsEverything(shuffle, seed, counts, deaths, selection);
    IterationIsComplete(shuffle, seed, counts, deaths);
    var order := IterationOrder(shuffle, seed, counts, deaths);
    forall k | 0 <= k < |visits| && visits[k].testCase == c
      ensures multiset(visits[k].tests)[t] == if IsSelectedTest(selection, c, t) then 1 else 0
    {
      assert visits[k] == VisitOf(order, selection, k);
      ExecutedOnce(order.tests[c], selection[c], t);
    }
    TimesOfEqualVisits(visits, c, t, IsSelectedTest(selection, c, t));
    PermutationCount(VisitedCases(visits), c);
  }

  function VisitedCases(visits: seq<Visit>): (cases: seq<nat>)
    ensures |cases| == |visits| && forall k | 0 <= k < |visits| :: cases[k] == visits[k].testCase
  {
    if visits == [] then [] else VisitedCases(visits[..|visits| - 1]) + [visits[|visits| - 1].testCase]
  }

  /** What the n-th iteration of a program visits, with the given seed flag and clock. */
  ghost function RepeatLog(hasTestsToRun: bool, shuffle: bool, seedFlag: int, clock: nat, n: nat,
                           counts: seq<nat>, deaths: int, selection: seq<Marks>): seq<Visit> {
    LogOf(hasTestsToRun, shuffle, SeedAt(GetRandomSeedFromFlag(seedFlag, clock), n), counts, deaths, selection)
  }

  /** The n-th iteration of a run is the first iteration of a run that is given its seed, whatever the clock then says. */
  lemma IterationIsReproducible(hasTestsToRun: bool, shuffle: bool, seedFlag: int, clock: nat, clock': nat, n: nat,
                                counts: seq<nat>, deaths: int, selection: seq<Marks>)
    ensures RepeatLog(hasTestsToRun, shuffle, SeedAt(GetRandomSeedFromFlag(seedFlag, clock), n), clock', 0, counts, deaths, selection)
         == RepeatLog(hasTestsToRun, shuffle, seedFlag, clock, n, counts, deaths, selection)
  {
    hide GetRandomSeedFromFlag, LogOf;
    SeedInRangeIsKept(SeedAt(GetRandomSeedFromFlag(seedFlag, clock), n), clock');
  }
}
