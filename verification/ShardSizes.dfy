/** How many tests the processes of a sharded program run: the numbering of the runnable tests deals them out evenly. */
module ShardSizes {
  import opened CText
  import opened Numbers
  import opened RandomOrder
  import opened Registry
  import opened Sharding
  import opened Visits
  import opened TestProgram

  // ---------------------------------------------------------------- the numbering

  /** In registration order: an earlier case, or an earlier test of the same case. */
  predicate Earlier(c: nat, t: nat, c': nat, t': nat) { c < c' || (c == c' && t < t') }

  /** The runnable tests are numbered upwards in registration order, below their total. */
  lemma {:induction false} NumbersAscend(o: Options, cases: seq<Registration>, c: nat, t: nat, c': nat, t': nat)
    requires IsRunnable(o, cases, c, t) && IsRunnable(o, cases, c', t') && Earlier(c, t, c', t')
    ensures NumberOf(o, cases, c, t) < NumberOf(o, cases, c', t') < RunnableUpTo(o, cases, |cases|)
  {
    hide Runnable;
    NumberBelow(o, cases, c', t', |cases|);
    if c < c' {
      NumberBelow(o, cases, c, t, c');
    } else {
      NumberBelowCase(o, cases[c].name, cases[c].tests, t, t');
    }
  }

  // ---------------------------------------------------------------- sums over an iteration

  function TestsRun(visits: seq<Visit>): nat {
    if visits == [] then 0 else TestsRun(visits[..|visits| - 1]) + |visits[|visits| - 1].tests|
  }

  predicate AllBelow(places: seq<nat>, n: nat) { forall k | 0 <= k < |places| :: places[k] < n }

  /** The sum of the sizes at the places named. */
  function SumAt(sizes: seq<nat>, places: seq<nat>): nat
    requires AllBelow(places, |sizes|)
  {
    if places == [] then 0 else SumAt(sizes, places[..|places| - 1]) + sizes[places[|places| - 1]]
  }

  lemma {:induction false} SumAtConcat(sizes: seq<nat>, a: seq<nat>, b: seq<nat>)
    requires AllBelow(a, |sizes|) && AllBelow(b, |sizes|)
    ensures AllBelow(a + b, |sizes|) && SumAt(sizes, a + b) == SumAt(sizes, a) + SumAt(sizes, b)
  {
    if b == [] {
      assert a + b == a;
    } else {
      SumAtConcat(sizes, a, b[..|b| - 1]);
      assert (a + b)[..|a + b| - 1] == a + b[..|b| - 1];
    }
  }

  /** A sum does not depend on the order of the places. */
  lemma {:induction false} SumAtRearranged(sizes: seq<nat>, a: seq<nat>, b: seq<nat>)
    requires AllBelow(a, |sizes|) && AllBelow(b, |sizes|) && multiset(a) == multiset(b)
    ensures SumAt(sizes, a) == SumAt(sizes, b)
  {
    hide AllBelow, SumAt;
    if a == [] {
      NothingLeft(b);
    } else {
      var init, x := a[..|a| - 1], a[|a| - 1];
      var i := PlaceIn(a, b);
      var front, back := b[..i], b[i + 1..];
      assert a == init + [x] && b == front + [x] + back;
      WithoutOne(init, front, x, back);
      Parts(sizes, init, front, x, back);
      SumAtRearranged(sizes, init, front + back);
      NoPlace(sizes);
      SumAtPutBack(sizes, init, x, []);
      SumAtPutBack(sizes, front, x, back);
      assert init + [x] + [] == a && init + [] == init;
    }
  }

  lemma Parts(sizes: seq<nat>, init: seq<nat>, front: seq<nat>, x: nat, back: seq<nat>)
    requires AllBelow(init + [x], |sizes|) && AllBelow(front + [x] + back, |sizes|)
    ensures x < |sizes| && AllBelow(init, |sizes|) && AllBelow(front, |sizes|) && AllBelow(back, |sizes|) && AllBelow(front + back, |sizes|)
  {
    var a, b := init + [x], front + [x] + back;
    assert a[|init|] == x;
    assert forall k | 0 <= k < |init| :: init[k] == a[k];
    assert forall k | 0 <= k < |front| :: front[k] == b[k];
    assert forall k | 0 <= k < |back| :: back[k] == b[|front| + 1 + k];
  }

  lemma SumAtPutBack(sizes: seq<nat>, front: seq<nat>, x: nat, back: seq<nat>)
    requires x < |sizes| && AllBelow(front, |sizes|) && AllBelow(back, |sizes|)
    ensures AllBelow(front + [x] + back, |sizes|) && AllBelow(front + back, |sizes|)
    ensures SumAt(sizes, front + [x] + back) == SumAt(sizes, front + back) + sizes[x]
  {
    hide AllBelow;
    OnePlace(sizes, x);
    SumAtConcat(sizes, front, [x]);
    SumAtConcat(sizes, front + [x], back);
    SumAtConcat(sizes, front, back);
  }

  lemma NoPlace(sizes: seq<nat>)
    ensures AllBelow([], |sizes|) && SumAt(sizes, []) == 0
  {
  }

  lemma OnePlace(sizes: seq<nat>, x: nat)
    requires x < |sizes|
    ensures AllBelow([x], |sizes|) && SumAt(sizes, [x]) == sizes[x]
  {
    assert [x][..0] == [];
  }

  lemma NothingLeft(b: seq<nat>)
    requires multiset(b) == multiset([])
    ensures b == []
  {
    assert |b| == |multiset(b)|;
  }

  lemma PlaceIn(a: seq<nat>, b: seq<nat>) returns (i: nat)
    requires a != [] && multiset(a) == multiset(b)
    ensures i < |b| && b[i] == a[|a| - 1]
  {
    assert a[|a| - 1] in multiset(b);
    i :| i < |b| && b[i] == a[|a| - 1];
  }

  lemma WithoutOne(init: seq<nat>, front: seq<nat>, x: nat, back: seq<nat>)
    requires multiset(init + [x]) == multiset(front + [x] + back)
    ensures multiset(init) == multiset(front + back)
  {
    assert multiset(init) == multiset(init + [x]) - multiset{x};
    assert multiset(front + back) == multiset(front + [x] + back) - multiset{x};
  }

  // ---------------------------------------------------------------- the tests of one case

  /** The marks among the first n. */
  function Trues(marks: seq<bool>, n: nat): nat
    requires n <= |marks|
  {
    if n == 0 then 0 else Trues(marks, n - 1) + if marks[n - 1] then 1 else 0
  }

  function SizeOf(marks: Marks): nat { if marks.caseRuns then Trues(marks.testRuns, |marks.testRuns|) else 0 }

  lemma {:induction false} ExecutedInTurn(marks: seq<bool>, n: nat)
    requires n <= |marks|
    ensures |ExecutedUpTo(Identity(|marks|), marks, n)| == Trues(marks, n)
  {
    if n > 0 { ExecutedInTurn(marks, n - 1); }
  }

  function Occurrences(s: seq<nat>, t: nat): nat { multiset(s)[t] }

  lemma SameOccurrences(a: seq<nat>, b: seq<nat>)
    requires forall t: nat :: Occurrences(a, t) == Occurrences(b, t)
    ensures |a| == |b|
  {
    var x: multiset<nat>, y: multiset<nat> := multiset(a), multiset(b);
    forall t: nat ensures x[t] == y[t] { assert Occurrences(a, t) == Occurrences(b, t); }
    assert x == y;
    assert |a| == |x| && |b| == |y|;
  }

  /** However its tests are ordered, a case runs as many as are marked. */
  lemma ExecutedSize(order: seq<nat>, marks: Marks)
    requires IsPermutation(order) && |order| == |marks.testRuns|
    ensures |Executed(order, marks)| == SizeOf(marks)
  {
    hide ExecutedUpTo, IsPermutation, Executed;
    var inTurn := Identity(|order|);
    IdentityIsPermutation(|order|);
    var a, b := Executed(order, marks), Executed(inTurn, marks);
    forall t: nat ensures Occurrences(a, t) == Occurrences(b, t) {
      ExecutedOnce(order, marks, t);
      ExecutedOnce(inTurn, marks, t);
    }
    SameOccurrences(a, b);
    InTurnSize(marks);
  }

  lemma InTurnSize(marks: Marks)
    ensures |Executed(Identity(|marks.testRuns|), marks)| == SizeOf(marks)
  {
    ExecutedInTurn(marks.testRuns, |marks.testRuns|);
  }

  lemma IdentityIsPermutation(n: nat)
    ensures IsPermutation(Identity(n)) && |Identity(n)| == n
  {
  }

  // ---------------------------------------------------------------- one iteration

  function Sizes(selection: seq<Marks>): (sizes: seq<nat>)
    ensures |sizes| == |selection| && forall c | 0 <= c < |sizes| :: sizes[c] == SizeOf(selection[c])
  {
    seq(|selection|, c requires 0 <= c < |selection| => SizeOf(selection[c]))
  }

  lemma {:induction false} RunIsSum(visits: seq<Visit>, sizes: seq<nat>)
    requires forall k | 0 <= k < |visits| :: visits[k].testCase < |sizes| && |visits[k].tests| == sizes[visits[k].testCase]
    ensures AllBelow(VisitedCases(visits), |sizes|) && TestsRun(visits) == SumAt(sizes, VisitedCases(visits))
  {
    if visits != [] {
      var init := visits[..|visits| - 1];
      RunIsSum(init, sizes);
      assert VisitedCases(visits)[..|visits| - 1] == VisitedCases(init);
    }
  }

  lemma InTurnBelow(n: nat, bound: nat)
    requires n <= bound
    ensures AllBelow(Identity(n), bound)
  {
  }

  /** An iteration runs as many tests as are selected, whatever its order. */
  lemma {:induction false} IterationSize(shuffle: bool, seed: nat, counts: seq<nat>, deaths: nat, selection: seq<Marks>)
    requires deaths <= |counts| && MarksFit(counts, selection)
    ensures AllBelow(Identity(|counts|), |counts|)
    ensures TestsRun(IterationLog(shuffle, seed, counts, deaths, selection)) == SumAt(Sizes(selection), Identity(|counts|))
  {
    hide IsPermutation, IterationOrder, Executed, TestsRun, SumAt, SizeOf, AllBelow;
    var visits, sizes := IterationLog(shuffle, seed, counts, deaths, selection), Sizes(selection);
    InTurnBelow(|counts|, |counts|);
    IterationVisitsEverything(shuffle, seed, counts, deaths, selection);
    IterationIsComplete(shuffle, seed, counts, deaths);
    var order := IterationOrder(shuffle, seed, counts, deaths);
    forall k | 0 <= k < |visits| ensures visits[k].testCase < |sizes| && |visits[k].tests| == sizes[visits[k].testCase] {
      var c := visits[k].testCase;
      assert visits[k] == VisitOf(order, selection, k);
      ExecutedSize(order.tests[c], selection[c]);
    }
    RunIsSum(visits, sizes);
    SameCounts(VisitedCases(visits));
    SumAtRearranged(sizes, VisitedCases(visits), Identity(|counts|));
  }

  lemma SameCounts(s: seq<nat>)
    requires IsPermutation(s)
    ensures multiset(s) == multiset(Identity(|s|))
  {
  }

  // ---------------------------------------------------------------- one program

  /** Of the first n tests of a case as many are marked as belong here of the numbers they get. */
  lemma {:induction false} SelectedInCase(o: Options, p: Protocol, cases: seq<Registration>, c: nat, n: nat)
    requires IsProtocol(p) && c < |cases| && n <= |cases[c].tests|
    ensures Trues(MarksOf(o, p, cases, c).testRuns, n) + SelectedBelow(p, RunnableUpTo(o, cases, c))
         == SelectedBelow(p, RunnableUpTo(o, cases, c) + RunnableBefore(o, cases[c].name, cases[c].tests, n))
  {
    hide Runnable, Here, RunnableUpTo;
    if n > 0 {
      SelectedInCase(o, p, cases, c, n - 1);
      assert MarksOf(o, p, cases, c).testRuns[n - 1] == RunsHere(o, p, cases, c, n - 1);
    }
  }

  lemma {:induction false} NoTrues(marks: seq<bool>, n: nat)
    requires n <= |marks| && forall k | 0 <= k < n :: !marks[k]
    ensures Trues(marks, n) == 0
  {
    if n > 0 { NoTrues(marks, n - 1); }
  }

  lemma {:induction false} SizeOfCase(o: Options, p: Protocol, cases: seq<Registration>, c: nat)
    requires IsProtocol(p) && c < |cases|
    ensures var marks := MarksOf(o, p, cases, c); SizeOf(marks) == Trues(marks.testRuns, |cases[c].tests|)
  {
    hide RunsHere, Trues;
    var marks := MarksOf(o, p, cases, c);
    if !marks.caseRuns { NoTrues(marks.testRuns, |marks.testRuns|); }
  }

  lemma {:induction false} SelectedInCases(o: Options, p: Protocol, cases: seq<Registration>, n: nat)
    requires IsProtocol(p) && n <= |cases|
    ensures AllBelow(Identity(n), |cases|)
    ensures SumAt(Sizes(SelectionOf(o, p, cases)), Identity(n)) == SelectedBelow(p, RunnableUpTo(o, cases, n))
  {
    hide SelectedBelow, MarksOf, Trues, SizeOf, RunnableBefore;
    InTurnBelow(n, |cases|);
    if n > 0 {
      SelectedInCases(o, p, cases, n - 1);
      SelectedInCase(o, p, cases, n - 1, |cases[n - 1].tests|);
      SizeOfCase(o, p, cases, n - 1);
      assert Identity(n)[..n - 1] == Identity(n - 1);
    } else {
      NoneBelow(p);
    }
  }

  lemma NoneBelow(p: Protocol)
    requires IsProtocol(p)
    ensures SelectedBelow(p, 0) == 0
  {
  }

  /** Every iteration of a program runs as many tests as of all runnable ones belong here. */
  lemma {:induction false} ProgramSize(r: Registry, o: Options, p: Protocol, shuffle: bool, seedFlag: int, clock: nat, i: nat)
    requires IsProtocol(p) && r.deaths <= |r.cases|
    ensures TestsRun(ProgramLog(r, o, p, shuffle, seedFlag, clock, i)) == SelectedBelow(p, RunnableUpTo(o, r.cases, |r.cases|))
  {
    hide IterationLog, SeedAt, GetRandomSeedFromFlag, SelectedBelow, RunnableUpTo, SelectionOf, CountsOf, SumAt;
    if SelectedCount(o, p, r.cases) > 0 {
      var seed := SeedAt(GetRandomSeedFromFlag(seedFlag, clock), i);
      SelectedIsRunsHere(o, p, r.cases, 0, 0);
      IterationSize(shuffle, seed, CountsOf(r.cases), r.deaths, SelectionOf(o, p, r.cases));
      SelectedInCases(o, p, r.cases, |r.cases|);
    }
  }

  // ---------------------------------------------------------------- all processes

  /** All that are runnable belong here when the protocol is ignored. */
  lemma {:induction false} AllBelong(n: nat)
    ensures SelectedBelow(Ignore, n) == n
  {
    if n > 0 { AllBelong(n - 1); }
  }

  ghost function RunnableTests(tests: seq<Declaration>, o: Options): nat {
    RunnableUpTo(o, RegistryOf(tests).cases, |RegistryOf(tests).cases|)
  }

  /** Every iteration of a program that is not sharded runs all runnable tests. */
  lemma {:induction false} UnshardedSize(program: Program, outcome: Outcome, i: nat)
    requires program.inputs.inSubprocess || program.inputs.env == Environment(None, None)
    requires IsOutcome(outcome, RegistryOf(program.tests), program.inputs)
    requires outcome.Ran? && i < |outcome.log|
    ensures TestsRun(outcome.log[i]) == RunnableTests(program.tests, program.inputs.options)
  {
    hide ProtocolOf, ProgramLog, RegistryOf, SelectedBelow, RunnableUpTo;
    var x := program.inputs;
    EnvironmentNamesShard(1, 0, x.env);
    ProgramSize(RegistryOf(program.tests), x.options, Ignore, x.shuffle, x.seedFlag, x.clock, i);
    AllBelong(RunnableTests(program.tests, x.options));
  }

  /**
   Every iteration of the process of shard s among n runs a fair share of all runnable tests: their n-th part, rounded up in the first
   shards and down in the others.
   */
  lemma {:induction false} ShardedSize(tests: seq<Declaration>, o: Options, n: nat, s: nat, x: Inputs, outcome: Outcome, i: nat)
    requires s < n <= INT_MAX && IsShard(tests, o, n, s, x, outcome)
    requires outcome.Ran? && i < |outcome.log|
    ensures TestsRun(outcome.log[i]) == (RunnableTests(tests, o) + n - 1 - s) / n
  {
    hide ProtocolOf, ProgramLog, RegistryOf, SelectedBelow, RunnableUpTo, ShardEnvironment;
    var p := if n == 1 then Ignore else Honor(n, s);
    EnvironmentNamesShard(n, s, x.env);
    ProgramSize(RegistryOf(tests), o, p, x.shuffle, x.seedFlag, x.clock, i);
    if n == 1 {
      AllBelong(RunnableTests(tests, o));
    } else {
      ShardSize(n, s, RunnableTests(tests, o));
    }
  }
}
