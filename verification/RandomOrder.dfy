/** The generator behind --gtest_shuffle, and the order it produces from a seed. */
module RandomOrder {

  const MAX_RANGE: nat := 0x8000_0000
  const UINT32: nat := 0x1_0000_0000
  const MAX_RANDOM_SEED: nat := 99999

  /** The linear congruential step, in 32-bit unsigned arithmetic. */
  function NextState(state: nat): nat { ((1103515245 * state + 12345) % UINT32) % MAX_RANGE }

  class Random {
    var state: nat

    constructor (seed: nat)
      ensures state == seed
    {
      state := seed;
    }

    method Reseed(seed: nat)
      modifies this
      ensures state == seed
    {
      state := seed;
    }

    method Generate(range: nat) returns (r: nat)
      requires 0 < range <= MAX_RANGE
      modifies this
      ensures state == NextState(old(state)) && r == state % range < range
    {
      state := ((1103515245 * state + 12345) % UINT32) % MAX_RANGE;
      r := state % range;
    }
  }

  // ---------------------------------------------------------------- seeds

  /** The flag's value, or the clock's when it is zero, brought into 1..99999. */
  function GetRandomSeedFromFlag(flag: int, clock: nat): (seed: nat)
    ensures 1 <= seed <= MAX_RANDOM_SEED
  {
    var raw: int := if flag == 0 then clock % UINT32 else flag % UINT32;
    ((raw - 1) % UINT32) % MAX_RANDOM_SEED + 1
  }

  /** A seed already in range is kept. */
  lemma SeedInRangeIsKept(flag: int, clock: nat)
    requires 1 <= flag <= MAX_RANDOM_SEED
    ensures GetRandomSeedFromFlag(flag, clock) == flag
  {
  }

  /** The source checks the range of its argument and aborts; the check is the precondition. */
  function GetNextRandomSeed(seed: nat): (next: nat)
    requires 1 <= seed <= MAX_RANDOM_SEED
    ensures 1 <= next <= MAX_RANDOM_SEED
  {
    if seed + 1 > MAX_RANDOM_SEED then 1 else seed + 1
  }

  /** The seed of the n-th iteration. */
  function SeedAt(seed: nat, n: nat): (s: nat)
    requires 1 <= seed <= MAX_RANDOM_SEED
    ensures 1 <= s <= MAX_RANDOM_SEED
  {
    if n == 0 then seed else GetNextRandomSeed(SeedAt(seed, n - 1))
  }

  // ---------------------------------------------------------------- shuffling

  function Swap<T>(v: seq<T>, i: nat, j: nat): (w: seq<T>)
    requires i < |v| && j < |v|
    ensures |w| == |v| && w[i] == v[j] && w[j] == v[i] && forall k | 0 <= k < |v| && k != i && k != j :: w[k] == v[k]
  {
    v[i := v[j]][j := v[i]]
  }

  /** The elements begin..begin + width - 1 in the order the generator gives them, with the generator's state afterwards. */
  function Shuffled<T>(state: nat, v: seq<T>, begin: nat, width: nat): (r: (seq<T>, nat))
    requires begin + width <= |v|
    ensures |r.0| == |v|
    decreases width
  {
    if width < 2 then (v, state)
    else
      var next := NextState(state);
      Shuffled(next, Swap(v, begin + next % width, begin + width - 1), begin, width - 1)
  }

  /** w holds the elements of v with only the positions begin..end - 1 rearranged. */
  ghost predicate RearrangedWithin<T>(v: seq<T>, w: seq<T>, begin: nat, end: nat) {
    && begin <= end <= |v| == |w|
    && v[..begin] == w[..begin] && v[end..] == w[end..]
    && multiset(v[begin..end]) == multiset(w[begin..end])
  }

  lemma SwapRearranges<T>(v: seq<T>, i: nat, j: nat, begin: nat, end: nat)
    requires begin <= i < end <= |v| && begin <= j < end
    ensures RearrangedWithin(v, Swap(v, i, j), begin, end)
  {
    var w := Swap(v, i, j);
    var x, y := v[begin..end], w[begin..end];
    assert y == x[i - begin := x[j - begin]][j - begin := x[i - begin]];
  }

  lemma RearrangedTransitive<T>(u: seq<T>, v: seq<T>, w: seq<T>, begin: nat, end': nat, end: nat)
    requires end' <= end && RearrangedWithin(u, v, begin, end) && RearrangedWithin(v, w, begin, end')
    ensures RearrangedWithin(u, w, begin, end)
  {
    assert v[begin..end] == v[begin..end'] + v[end'..end];
    assert w[begin..end] == w[begin..end'] + w[end'..end];
    assert v[end'..end] == v[end'..][..end - end'] == w[end'..][..end - end'] == w[end'..end];
    assert v[end..] == v[end'..][end - end'..] == w[end'..][end - end'..] == w[end..];
  }

  lemma ShuffledStep<T>(state: nat, v: seq<T>, begin: nat, width: nat) returns (next: nat, w: seq<T>)
    requires begin + width <= |v| && width >= 2
    ensures |w| == |v| && Shuffled(state, v, begin, width) == Shuffled(next, w, begin, width - 1)
    ensures RearrangedWithin(v, w, begin, begin + width)
  {
    hide RearrangedWithin;
    next := NextState(state);
    var selected := begin + next % width;
    w := Swap(v, selected, begin + width - 1);
    SwapRearranges(v, selected, begin + width - 1, begin, begin + width);
  }

  lemma {:induction false} ShuffleRearranges<T>(state: nat, v: seq<T>, begin: nat, width: nat)
    requires begin + width <= |v|
    ensures RearrangedWithin(v, Shuffled(state, v, begin, width).0, begin, begin + width)
    decreases width
  {
    if width >= 2 {
      hide RearrangedWithin, Shuffled;
      var next, w := ShuffledStep(state, v, begin, width);
      ShuffleRearranges(next, w, begin, width - 1);
      RearrangedTransitive(v, w, Shuffled(next, w, begin, width - 1).0, begin, begin + width - 1, begin + width);
    }
  }

  /** The in-place Fisher-Yates loop, from the far end of the range down. */
  method ShuffleRange<T>(random: Random, begin: int, end: int, v: seq<T>) returns (w: seq<T>)
    requires 0 <= begin <= end <= |v| <= MAX_RANGE
    modifies random
    ensures (w, random.state) == Shuffled(old(random.state), v, begin, end - begin)
  {
    w := v;
    var rangeWidth := end - begin;
    while rangeWidth >= 2
      invariant 0 <= rangeWidth <= end - begin && |w| == |v|
      invariant Shuffled(random.state, w, begin, rangeWidth) == Shuffled(old(random.state), v, begin, end - begin)
    {
      var lastInRange := begin + rangeWidth - 1;
      var offset := random.Generate(rangeWidth);
      var selected := begin + offset;
      w := w[selected := w[lastInRange]][lastInRange := w[selected]];
      rangeWidth := rangeWidth - 1;
    }
  }

  // ---------------------------------------------------------------- permutations

  function Identity(n: nat): (s: seq<nat>)
    ensures |s| == n && forall k | 0 <= k < n :: s[k] == k
  {
    seq(n, k requires 0 <= k < n => k)
  }

  /** Every index below |s| occurs exactly once. */
  ghost predicate IsPermutation(s: seq<nat>) { multiset(s) == multiset(Identity(|s|)) }

  lemma RearrangedIsPermutation(v: seq<nat>, w: seq<nat>, begin: nat, end: nat)
    requires IsPermutation(v) && RearrangedWithin(v, w, begin, end)
    ensures IsPermutation(w)
  {
    assert v == v[..begin] + v[begin..end] + v[end..];
    assert w == w[..begin] + w[begin..end] + w[end..];
  }

  // ---------------------------------------------------------------- the order of one iteration

  /** The test cases in the order they run, and for each test case the order of its tests. */
  datatype Order = Order(cases: seq<nat>, tests: seq<seq<nat>>)

  /** Shuffles one list after the other with one generator. */
  function ShuffledEach(state: nat, lists: seq<seq<nat>>): (r: (seq<seq<nat>>, nat))
    ensures |r.0| == |lists|
  {
    if lists == [] then ([], state)
    else
      var n := |lists| - 1;
      var (done, state') := ShuffledEach(state, lists[..n]);
      var (list, state'') := Shuffled(state', lists[n], 0, |lists[n]|);
      (done + [list], state'')
  }

  lemma ShuffledNone(state: nat)
    ensures ShuffledEach(state, []) == ([], state)
  {
  }

  lemma ShuffledNext(state: nat, lists: seq<seq<nat>>, i: nat)
    requires i < |lists|
    ensures var (done, state') := ShuffledEach(state, lists[..i]);
            var (list, state'') := Shuffled(state', lists[i], 0, |lists[i]|);
            ShuffledEach(state, lists[..i + 1]) == (done + [list], state'')
  {
    assert lists[..i + 1][..i] == lists[..i];
  }

  /** Death test cases among themselves, then the others among themselves, then the tests of each case. */
  function ShuffledOrder(state: nat, order: Order, deaths: nat): (r: (Order, nat))
    requires deaths <= |order.cases|
  {
    var (first, state1) := Shuffled(state, order.cases, 0, deaths);
    var (both, state2) := Shuffled(state1, first, deaths, |order.cases| - deaths);
    var (tests, state3) := ShuffledEach(state2, order.tests);
    (Order(both, tests), state3)
  }

  /** Registration order. */
  function RegisteredOrder(counts: seq<nat>): Order {
    Order(Identity(|counts|), seq(|counts|, c requires 0 <= c < |counts| => Identity(counts[c])))
  }

  /** The order of an iteration: a function of its seed and of what is registered, and of nothing else. */
  function IterationOrder(shuffle: bool, seed: nat, counts: seq<nat>, deaths: nat): Order
    requires deaths <= |counts|
  {
    if shuffle then ShuffledOrder(seed, RegisteredOrder(counts), deaths).0 else RegisteredOrder(counts)
  }

  /** Every index once, those below deaths first. */
  ghost predicate CasesOrdered(cases: seq<nat>, deaths: nat) {
    && deaths <= |cases|
    && IsPermutation(cases)
    && forall k | 0 <= k < |cases| :: k < deaths <==> cases[k] < deaths
  }

  /** Every case and every test exactly once, the death test cases (the first ones registered) first. */
  ghost predicate IsComplete(order: Order, counts: seq<nat>, deaths: nat) {
    && |order.cases| == |order.tests| == |counts|
    && CasesOrdered(order.cases, deaths)
    && (forall c | 0 <= c < |counts| :: |order.tests[c]| == counts[c] && IsPermutation(order.tests[c]))
  }

  lemma {:induction false} EachIsPermuted(state: nat, lists: seq<seq<nat>>)
    requires forall c | 0 <= c < |lists| :: IsPermutation(lists[c])
    ensures var lists' := ShuffledEach(state, lists).0;
            forall c | 0 <= c < |lists| :: |lists'[c]| == |lists[c]| && IsPermutation(lists'[c])
  {
    if lists != [] {
      hide IsPermutation, RearrangedWithin, Shuffled;
      var n := |lists| - 1;
      EachIsPermuted(state, lists[..n]);
      var state' := ShuffledEach(state, lists[..n]).1;
      ShuffleRearranges(state', lists[n], 0, |lists[n]|);
      RearrangedIsPermutation(lists[n], Shuffled(state', lists[n], 0, |lists[n]|).0, 0, |lists[n]|);
    }
  }

  /** Rearranging on one side of a border keeps every index on its side. */
  lemma BorderKept(v: seq<nat>, w: seq<nat>, begin: nat, end: nat, border: nat)
    requires RearrangedWithin(v, w, begin, end) && (end <= border || border <= begin)
    requires border <= |v| && forall k | 0 <= k < |v| :: k < border <==> v[k] < border
    ensures forall k | 0 <= k < |w| :: k < border <==> w[k] < border
  {
    forall k | 0 <= k < |w| ensures k < border <==> w[k] < border {
      if k < begin {
        assert w[k] == w[..begin][k] == v[..begin][k] == v[k];
      } else if k >= end {
        assert w[k] == w[end..][k - end] == v[end..][k - end] == v[k];
      } else {
        assert w[k] == w[begin..end][k - begin];
        assert w[k] in multiset(w[begin..end]);
        assert w[k] in v[begin..end];
        var j :| 0 <= j < end - begin && v[begin..end][j] == w[k];
        assert v[begin + j] == w[k];
      }
    }
  }

  lemma IterationIsComplete(shuffle: bool, seed: nat, counts: seq<nat>, deaths: nat)
    requires deaths <= |counts|
    ensures IsComplete(IterationOrder(shuffle, seed, counts, deaths), counts, deaths)
  {
    hide IsComplete, RegisteredOrder, ShuffledOrder;
    RegisteredIsComplete(counts, deaths);
    if shuffle {
      ShuffledIsComplete(seed, RegisteredOrder(counts), counts, deaths);
    }
  }

  lemma RegisteredIsComplete(counts: seq<nat>, deaths: nat)
    requires deaths <= |counts|
    ensures IsComplete(RegisteredOrder(counts), counts, deaths)
  {
    hide CasesOrdered, IsPermutation;
    var start := RegisteredOrder(counts);
    IdentityIsOrdered(|counts|, deaths);
    forall c | 0 <= c < |counts| ensures |start.tests[c]| == counts[c] && IsPermutation(start.tests[c]) {
      IdentityIsPermutation(counts[c]);
    }
  }

  lemma ShuffledIsComplete(seed: nat, order: Order, counts: seq<nat>, deaths: nat)
    requires deaths <= |counts| && IsComplete(order, counts, deaths)
    ensures IsComplete(ShuffledOrder(seed, order, deaths).0, counts, deaths)
  {
    hide CasesOrdered, IsPermutation, Shuffled, ShuffledEach;
    var (first, state1) := Shuffled(seed, order.cases, 0, deaths);
    ShuffleKeepsOrdered(seed, order.cases, 0, deaths, deaths);
    var (both, state2) := Shuffled(state1, first, deaths, |counts| - deaths);
    ShuffleKeepsOrdered(state1, first, deaths, |counts| - deaths, deaths);
    EachIsPermuted(state2, order.tests);
    var tests := ShuffledEach(state2, order.tests).0;
    assert ShuffledOrder(seed, order, deaths).0 == Order(both, tests);
    forall c | 0 <= c < |counts| ensures |tests[c]| == counts[c] && IsPermutation(tests[c]) {
      assert |order.tests[c]| == counts[c];
    }
  }

  lemma ShuffleKeepsOrdered(state: nat, v: seq<nat>, begin: nat, width: nat, deaths: nat)
    requires begin + width <= |v| && (begin + width <= deaths || deaths <= begin) && CasesOrdered(v, deaths)
    ensures CasesOrdered(Shuffled(state, v, begin, width).0, deaths)
  {
    hide RearrangedWithin, Shuffled, IsPermutation;
    var w := Shuffled(state, v, begin, width).0;
    ShuffleRearranges(state, v, begin, width);
    RearrangedIsPermutation(v, w, begin, begin + width);
    BorderKept(v, w, begin, begin + width, deaths);
  }

  lemma IdentityIsOrdered(n: nat, deaths: nat)
    requires deaths <= n
    ensures CasesOrdered(Identity(n), deaths)
  {
  }

  lemma IdentityIsPermutation(n: nat)
    ensures IsPermutation(Identity(n))
  {
  }
}
