/** What the shuffle is: Fisher-Yates, one arrangement for every choice of draws, and the generator's draws among them. */
module FisherYates {
  import opened RandomOrder
  import opened Sequences

  // ---------------------------------------------------------------- arrangements and draws

  /** One draw for each length of the range still to be shuffled: draws[k], at most k, is the one made among k + 1 elements. */
  predicate AreDraws(draws: seq<nat>) { forall k | 0 <= k < |draws| :: draws[k] <= k }

  /** From the far end down, every place gets the element drawn from what is left. */
  function Arranged<T>(v: seq<T>, begin: nat, draws: seq<nat>): (w: seq<T>)
    requires AreDraws(draws) && begin + |draws| <= |v|
    ensures |w| == |v|
    decreases |draws|
  {
    if draws == [] then v
    else
      var last := |draws| - 1;
      Arranged(Swap(v, begin + draws[last], begin + last), begin, draws[..last])
  }

  lemma {:induction false} ArrangedOutside<T>(v: seq<T>, begin: nat, draws: seq<nat>, k: nat)
    requires AreDraws(draws) && begin + |draws| <= |v| && k < |v| && (k < begin || begin + |draws| <= k)
    ensures Arranged(v, begin, draws)[k] == v[k]
    decreases |draws|
  {
    if draws != [] {
      var last := |draws| - 1;
      ArrangedOutside(Swap(v, begin + draws[last], begin + last), begin, draws[..last], k);
    }
  }

  /** The last place gets the element of the first draw. */
  lemma ArrangedLast<T>(v: seq<T>, begin: nat, draws: seq<nat>)
    requires draws != [] && AreDraws(draws) && begin + |draws| <= |v|
    ensures var last := |draws| - 1; Arranged(v, begin, draws)[begin + last] == v[begin + draws[last]]
  {
    var last := |draws| - 1;
    ArrangedOutside(Swap(v, begin + draws[last], begin + last), begin, draws[..last], begin + last);
  }

  lemma {:induction false} ArrangedRearranges<T>(v: seq<T>, begin: nat, draws: seq<nat>)
    requires AreDraws(draws) && begin + |draws| <= |v|
    ensures RearrangedWithin(v, Arranged(v, begin, draws), begin, begin + |draws|)
    decreases |draws|
  {
    hide RearrangedWithin, Swap;
    if draws == [] {
      SameIsRearranged(v, begin);
    } else {
      var last := |draws| - 1;
      var w := Swap(v, begin + draws[last], begin + last);
      SwapRearranges(v, begin + draws[last], begin + last, begin, begin + last + 1);
      ArrangedRearranges(w, begin, draws[..last]);
      RearrangedTransitive(v, w, Arranged(v, begin, draws), begin, begin + last, begin + last + 1);
    }
  }

  lemma SameIsRearranged<T>(v: seq<T>, begin: nat)
    requires begin <= |v|
    ensures RearrangedWithin(v, v, begin, begin)
  {
  }

  // ---------------------------------------------------------------- every rearrangement, once

  predicate Distinct<T(==)>(v: seq<T>, begin: nat, end: nat)
    requires begin <= end <= |v|
  {
    forall i, j | begin <= i < j < end :: v[i] != v[j]
  }

  lemma NothingRearranged<T>(v: seq<T>, w: seq<T>, begin: nat)
    requires RearrangedWithin(v, w, begin, begin)
    ensures v == w
  {
    assert v == v[..begin] + v[begin..] && w == w[..begin] + w[begin..];
  }

  /** Where the last element of a rearrangement comes from. */
  lemma SourceOfLast<T>(v: seq<T>, w: seq<T>, begin: nat, end: nat) returns (j: nat)
    requires begin < end && RearrangedWithin(v, w, begin, end)
    ensures begin + j < end && v[begin + j] == w[end - 1]
  {
    var x := w[begin..end][end - 1 - begin];
    assert x in multiset(w[begin..end]);
    assert x in v[begin..end];
    var i :| 0 <= i < end - begin && v[begin..end][i] == x;
    j := i;
  }

  /** With the last place right, the rest is a rearrangement of a shorter range. */
  lemma RestRearranged<T>(v: seq<T>, w: seq<T>, begin: nat, end: nat)
    requires begin < end && RearrangedWithin(v, w, begin, end) && v[end - 1] == w[end - 1]
    ensures RearrangedWithin(v, w, begin, end - 1)
  {
    assert v[begin..end] == v[begin..end - 1] + [v[end - 1]];
    assert w[begin..end] == w[begin..end - 1] + [w[end - 1]];
    assert v[end - 1..] == [v[end - 1]] + v[end..];
    assert w[end - 1..] == [w[end - 1]] + w[end..];
    CancelLast(v[begin..end - 1], w[begin..end - 1], v[end - 1]);
  }

  lemma CancelLast<T>(a: seq<T>, b: seq<T>, x: T)
    requires multiset(a + [x]) == multiset(b + [x])
    ensures multiset(a) == multiset(b)
  {
    assert multiset(a) == multiset(a + [x]) - multiset{x};
    assert multiset(b) == multiset(b + [x]) - multiset{x};
  }

  lemma RearrangedBack<T>(v: seq<T>, w: seq<T>, begin: nat, end: nat)
    requires RearrangedWithin(v, w, begin, end)
    ensures RearrangedWithin(w, v, begin, end)
  {
  }

  /** The draw that puts the last place right; what remains is a rearrangement of a shorter range. */
  lemma LastDraw<T>(v: seq<T>, w: seq<T>, begin: nat, end: nat) returns (j: nat)
    requires begin < end && RearrangedWithin(v, w, begin, end)
    ensures begin + j < end <= |v| && RearrangedWithin(Swap(v, begin + j, end - 1), w, begin, end - 1)
  {
    hide RearrangedWithin, Swap;
    InRange(v, w, begin, end);
    j := SourceOfLast(v, w, begin, end);
    var v' := Swap(v, begin + j, end - 1);
    SwapRearranges(v, begin + j, end - 1, begin, end);
    RearrangedBack(v, v', begin, end);
    RearrangedTransitive(v', v, w, begin, end, end);
    RestRearranged(v', w, begin, end);
  }

  lemma ArrangedNext<T>(v: seq<T>, begin: nat, rest: seq<nat>, j: nat)
    requires AreDraws(rest) && j <= |rest| && begin + |rest| < |v|
    ensures AreDraws(rest + [j])
    ensures Arranged(v, begin, rest + [j]) == Arranged(Swap(v, begin + j, begin + |rest|), begin, rest)
  {
    assert (rest + [j])[..|rest|] == rest;
  }

  /** Every rearrangement of the range is reached by some draws. */
  lemma {:induction false} SomeDraws<T>(v: seq<T>, w: seq<T>, begin: nat, width: nat) returns (draws: seq<nat>)
    requires RearrangedWithin(v, w, begin, begin + width)
    ensures AreDraws(draws) && |draws| == width && begin + width <= |v| && Arranged(v, begin, draws) == w
    decreases width
  {
    hide RearrangedWithin, Arranged, AreDraws;
    InRange(v, w, begin, begin + width);
    if width == 0 {
      NothingRearranged(v, w, begin);
      draws := [];
      NoDraws(v, begin);
    } else {
      var j := LastDraw(v, w, begin, begin + width);
      var rest := SomeDraws(Swap(v, begin + j, begin + width - 1), w, begin, width - 1);
      draws := rest + [j];
      ArrangedNext(v, begin, rest, j);
    }
  }

  lemma NoDraws<T>(v: seq<T>, begin: nat)
    requires begin <= |v|
    ensures AreDraws([]) && Arranged(v, begin, []) == v
  {
  }

  lemma InRange<T>(v: seq<T>, w: seq<T>, begin: nat, end: nat)
    requires RearrangedWithin(v, w, begin, end)
    ensures begin <= end <= |v| == |w|
  {
  }

  /** Different draws give different arrangements of distinct elements. */
  lemma {:induction false} DrawsAreUnique<T>(v: seq<T>, begin: nat, d: seq<nat>, e: seq<nat>)
    requires AreDraws(d) && AreDraws(e) && |d| == |e| && begin + |d| <= |v| && Distinct(v, begin, begin + |d|)
    requires Arranged(v, begin, d) == Arranged(v, begin, e)
    ensures d == e
    decreases |d|
  {
    hide Swap, Arranged, Distinct, AreDraws;
    if d != [] {
      var last := |d| - 1;
      LastDrawsEqual(v, begin, d, e);
      DistinctStays(v, begin, begin + last, begin + d[last]);
      ArrangedUnfolds(v, begin, d);
      ArrangedUnfolds(v, begin, e);
      DrawsAreUnique(Swap(v, begin + d[last], begin + last), begin, d[..last], e[..last]);
      assert d == d[..last] + [d[last]] && e == e[..last] + [e[last]];
    }
  }

  lemma LastDrawsEqual<T>(v: seq<T>, begin: nat, d: seq<nat>, e: seq<nat>)
    requires AreDraws(d) && AreDraws(e) && |d| == |e| > 0 && begin + |d| <= |v| && Distinct(v, begin, begin + |d|)
    requires Arranged(v, begin, d) == Arranged(v, begin, e)
    ensures d[|d| - 1] == e[|d| - 1] <= |d| - 1
  {
    hide Arranged, Distinct;
    ArrangedLast(v, begin, d);
    ArrangedLast(v, begin, e);
    EqualMeansSame(v, begin, begin + |d|, begin + d[|d| - 1], begin + e[|d| - 1]);
  }

  lemma EqualMeansSame<T>(v: seq<T>, begin: nat, end: nat, i: nat, j: nat)
    requires begin <= i < end <= |v| && begin <= j < end && Distinct(v, begin, end) && v[i] == v[j]
    ensures i == j
  {
  }

  lemma ArrangedUnfolds<T>(v: seq<T>, begin: nat, draws: seq<nat>)
    requires draws != [] && AreDraws(draws) && begin + |draws| <= |v|
    ensures var last := |draws| - 1;
            && draws[last] <= last && AreDraws(draws[..last])
            && Arranged(v, begin, draws) == Arranged(Swap(v, begin + draws[last], begin + last), begin, draws[..last])
  {
  }

  lemma DistinctStays<T>(v: seq<T>, begin: nat, last: nat, i: nat)
    requires begin <= i <= last < |v| && Distinct(v, begin, last + 1)
    ensures Distinct(Swap(v, i, last), begin, last)
  {
  }

  ghost predicate Reaches<T>(v: seq<T>, begin: nat, width: nat, draws: seq<nat>, w: seq<T>) {
    AreDraws(draws) && |draws| == width && begin + width <= |v| && Arranged(v, begin, draws) == w
  }

  /** Fisher-Yates is fair: of distinct elements every rearrangement of the range, and nothing else, is reached, each by exactly one choice of draws. */
  lemma {:induction false} EveryArrangementOnce<T>(v: seq<T>, w: seq<T>, begin: nat, width: nat)
    requires begin + width <= |v| && Distinct(v, begin, begin + width)
    ensures RearrangedWithin(v, w, begin, begin + width) <==> exists d :: Reaches(v, begin, width, d, w)
    ensures forall d, e | Reaches(v, begin, width, d, w) && Reaches(v, begin, width, e, w) :: d == e
  {
    if RearrangedWithin(v, w, begin, begin + width) {
      var d := SomeDraws(v, w, begin, width);
      assert Reaches(v, begin, width, d, w);
    }
    if d :| Reaches(v, begin, width, d, w) {
      ArrangedRearranges(v, begin, d);
    }
    forall d, e | Reaches(v, begin, width, d, w) && Reaches(v, begin, width, e, w) ensures d == e {
      DrawsAreUnique(v, begin, d, e);
    }
  }

  // ---------------------------------------------------------------- the generator's draws

  /** The generator is the linear congruence x -> 1103515245 x + 12345 on 31 bits. */
  lemma NextStateIs(state: nat)
    ensures NextState(state) == (0x41C6_4E6D * state + 0x3039) % 0x8000_0000
  {
    LowBits(0x41C6_4E6D * state + 0x3039);
  }

  lemma LowBits(x: nat)
    ensures (x % 0x1_0000_0000) % 0x8000_0000 == x % 0x8000_0000
  {
  }

  function StateAfter(state: nat, n: nat): nat
    decreases n
  {
    if n == 0 then state else StateAfter(NextState(state), n - 1)
  }

  /** How many draws a range takes: none for its last element. */
  function Needed(width: nat): nat { if width == 0 then 0 else width - 1 }

  /** The draws of the generator for a range: its successive states, each reduced to what is left. */
  function Draws(state: nat, width: nat): (draws: seq<nat>)
    ensures |draws| == width && AreDraws(draws)
    decreases width
  {
    if width == 0 then [] else if width == 1 then [0]
    else Draws(NextState(state), width - 1) + [NextState(state) % width]
  }

  /** The draw made among k + 1 elements is the state then reached, modulo k + 1. */
  lemma {:induction false} DrawIs(state: nat, width: nat, k: nat)
    requires 1 <= k < width
    ensures Draws(state, width)[k] == StateAfter(state, width - k) % (k + 1)
    decreases width
  {
    if k < width - 1 {
      DrawIs(NextState(state), width - 1, k);
    }
  }

  lemma OneMoreDraw<T>(state: nat, v: seq<T>, begin: nat, width: nat)
    requires begin + width <= |v| && width >= 2
    ensures var next := NextState(state);
            && Draws(state, width) == Draws(next, width - 1) + [next % width]
            && StateAfter(state, Needed(width)) == StateAfter(next, Needed(width - 1))
            && Shuffled(state, v, begin, width) == Shuffled(next, Swap(v, begin + next % width, begin + width - 1), begin, width - 1)
  {
    hide NextState, Swap;
  }

  lemma FewDraws<T>(state: nat, v: seq<T>, begin: nat, width: nat)
    requires begin + width <= |v| && width < 2
    ensures Shuffled(state, v, begin, width) == (v, state) && StateAfter(state, Needed(width)) == state
    ensures Arranged(v, begin, Draws(state, width)) == v
  {
    if width == 1 {
      assert Draws(state, width)[..0] == [];
      assert Swap(v, begin, begin) == v;
    }
  }

  /** Shuffling is the arrangement of the generator's draws, and it takes as many draws as it needs. */
  lemma {:induction false} ShuffledIsArranged<T>(state: nat, v: seq<T>, begin: nat, width: nat)
    requires begin + width <= |v|
    ensures Shuffled(state, v, begin, width) == (Arranged(v, begin, Draws(state, width)), StateAfter(state, Needed(width)))
    decreases width
  {
    hide Shuffled, Arranged, Draws, StateAfter, AreDraws, Swap, NextState;
    if width >= 2 {
      var next := NextState(state);
      OneMoreDraw(state, v, begin, width);
      ShuffledIsArranged(next, Swap(v, begin + next % width, begin + width - 1), begin, width - 1);
      ArrangedNext(v, begin, Draws(next, width - 1), next % width);
    } else {
      FewDraws(state, v, begin, width);
    }
  }

  /** The last place gets the element that the generator's next state, modulo the width, picks. */
  lemma ShuffledLast<T>(state: nat, v: seq<T>, begin: nat, width: nat)
    requires width >= 2 && begin + width <= |v|
    ensures Shuffled(state, v, begin, width).0[begin + width - 1] == v[begin + NextState(state) % width]
  {
    hide Shuffled, Arranged, NextState;
    ShuffledIsArranged(state, v, begin, width);
    ArrangedLast(v, begin, Draws(state, width));
  }

  // ---------------------------------------------------------------- the order of an iteration

  /** The draws made before the tests of case c are shuffled: those for both groups of cases and for the tests of the earlier cases. */
  function DrawsBefore(counts: seq<nat>, deaths: nat, c: nat): nat
    requires deaths <= |counts| && c <= |counts|
  {
    if c == 0 then Needed(deaths) + Needed(|counts| - deaths) else DrawsBefore(counts, deaths, c - 1) + Needed(counts[c - 1])
  }

  lemma {:induction false} StateAfterBoth(state: nat, m: nat, n: nat)
    ensures StateAfter(StateAfter(state, m), n) == StateAfter(state, m + n)
    decreases m
  {
    if m > 0 { StateAfterBoth(NextState(state), m - 1, n); }
  }

  /** The order of the tests of case c. */
  function CaseOrder(seed: nat, counts: seq<nat>, deaths: nat, c: nat): seq<nat>
    requires deaths <= |counts| && c < |counts|
  {
    Arranged(Identity(counts[c]), 0, Draws(StateAfter(seed, DrawsBefore(counts, deaths, c)), counts[c]))
  }

  lemma CaseIsArranged(seed: nat, counts: seq<nat>, deaths: nat, c: nat)
    requires deaths <= |counts| && c < |counts|
    ensures Shuffled(StateAfter(seed, DrawsBefore(counts, deaths, c)), Identity(counts[c]), 0, counts[c])
         == (CaseOrder(seed, counts, deaths, c), StateAfter(seed, DrawsBefore(counts, deaths, c + 1)))
  {
    hide Shuffled, Arranged, Draws, StateAfter, AreDraws, Identity;
    ShuffledIsArranged(StateAfter(seed, DrawsBefore(counts, deaths, c)), Identity(counts[c]), 0, counts[c]);
    StateAfterBoth(seed, DrawsBefore(counts, deaths, c), Needed(counts[c]));
  }

  lemma {:induction false} EachIsArranged(seed: nat, counts: seq<nat>, deaths: nat, lists: seq<seq<nat>>, n: nat)
    requires deaths <= |counts| == |lists| && n <= |counts| && forall c | 0 <= c < |counts| :: lists[c] == Identity(counts[c])
    ensures var (done, state) := ShuffledEach(StateAfter(seed, DrawsBefore(counts, deaths, 0)), lists[..n]);
            && |done| == n && state == StateAfter(seed, DrawsBefore(counts, deaths, n))
            && forall c | 0 <= c < n :: done[c] == CaseOrder(seed, counts, deaths, c)
  {
    hide Shuffled, StateAfter, ShuffledEach, CaseOrder, Identity, DrawsBefore;
    var start := StateAfter(seed, DrawsBefore(counts, deaths, 0));
    if n == 0 {
      assert lists[..0] == [];
      ShuffledNone(start);
    } else {
      EachIsArranged(seed, counts, deaths, lists, n - 1);
      ShuffledNext(start, lists, n - 1);
      CaseIsArranged(seed, counts, deaths, n - 1);
    }
  }

  /** The two groups of cases, shuffled one after the other. */
  lemma CasesAreArranged(seed: nat, v: seq<nat>, deaths: nat)
    requires deaths <= |v|
    ensures var (first, state1) := Shuffled(seed, v, 0, deaths);
            var (both, state2) := Shuffled(state1, first, deaths, |v| - deaths);
            && both == Arranged(Arranged(v, 0, Draws(seed, deaths)), deaths, Draws(StateAfter(seed, Needed(deaths)), |v| - deaths))
            && state2 == StateAfter(seed, Needed(deaths) + Needed(|v| - deaths))
  {
    hide Shuffled, Arranged, Draws, StateAfter, AreDraws;
    ShuffledIsArranged(seed, v, 0, deaths);
    var (first, state1) := Shuffled(seed, v, 0, deaths);
    ShuffledIsArranged(state1, first, deaths, |v| - deaths);
    StateAfterBoth(seed, Needed(deaths), Needed(|v| - deaths));
  }

  /** A shuffled iteration arranges the death test cases, the others, and the tests of each case, with one run of draws from its seed. */
  lemma OrderIsArranged(seed: nat, counts: seq<nat>, deaths: nat)
    requires deaths <= |counts|
    ensures var order := IterationOrder(true, seed, counts, deaths);
            && |order.tests| == |counts|
            && order.cases == Arranged(Arranged(Identity(|counts|), 0, Draws(seed, deaths)),
                                       deaths, Draws(StateAfter(seed, Needed(deaths)), |counts| - deaths))
            && forall c | 0 <= c < |counts| :: order.tests[c] == CaseOrder(seed, counts, deaths, c)
  {
    hide Shuffled, Arranged, Draws, StateAfter, ShuffledEach, Identity, AreDraws, CaseOrder;
    var start := RegisteredOrder(counts);
    CasesAreArranged(seed, start.cases, deaths);
    EachIsArranged(seed, counts, deaths, start.tests, |counts|);
    assert start.tests[..|counts|] == start.tests;
  }

  /** Without shuffling every iteration keeps registration order. */
  lemma UnshuffledIsRegistered(seed: nat, counts: seq<nat>, deaths: nat)
    requires deaths <= |counts|
    ensures var order := IterationOrder(false, seed, counts, deaths);
            && |order.cases| == |order.tests| == |counts|
            && forall c | 0 <= c < |counts| :: order.cases[c] == c && |order.tests[c]| == counts[c]
                                             && forall t | 0 <= t < counts[c] :: order.tests[c][t] == t
  {
  }

  // ---------------------------------------------------------------- seeds

  /** The seeds of successive iterations count up, from 99999 back to 1. */
  lemma {:induction false} SeedAtIs(seed: nat, n: nat)
    requires 1 <= seed <= MAX_RANDOM_SEED
    ensures SeedAt(seed, n) == (seed - 1 + n) % 99999 + 1
  {
    if n > 0 { SeedAtIs(seed, n - 1); }
  }

  /** The first seed is the flag's value, or the clock's when the flag is zero, up to multiples of 99999. */
  lemma FirstSeedIs(flag: int, clock: nat)
    ensures var raw := (if flag == 0 then clock else flag) % 0x1_0000_0000;
            raw > 0 ==> (raw - GetRandomSeedFromFlag(flag, clock)) % 99999 == 0
    ensures 1 <= flag <= 99999 ==> GetRandomSeedFromFlag(flag, clock) == flag
  {
    var raw := (if flag == 0 then clock else flag) % 0x1_0000_0000;
    if raw > 0 {
      assert (raw - 1) % 0x1_0000_0000 == raw - 1;
      assert raw - 1 == 99999 * ((raw - 1) / 99999) + (raw - 1) % 99999;
    }
  }
}
