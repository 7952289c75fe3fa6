/**
 The edit-script computation behind the equality-failure messages: a cost table filled row by row, a best-move table
 beside it, and the script read back from the last cell.  Costs are the source's doubles scaled by 100000.
 */
module EditDistance {
  import opened Sequences

  datatype EditType = Match | Add | Remove | Replace

  const INDEL := 100000
  const REPLACE := 100001

  // ---------------------------------------------------------------- scripts

  function LeftStep(e: EditType): nat { if e == Add then 0 else 1 }
  function RightStep(e: EditType): nat { if e == Remove then 0 else 1 }
  function EditWeight(e: EditType): nat {
    match e case Match => 0 case Add => INDEL case Remove => INDEL case Replace => REPLACE
  }

  /** The number of lines of the left input that a script consumes. */
  function LeftUsed(s: seq<EditType>): nat {
    if s == [] then 0 else LeftUsed(s[..|s| - 1]) + LeftStep(s[|s| - 1])
  }

  /** The number of lines of the right input that a script produces. */
  function RightUsed(s: seq<EditType>): nat {
    if s == [] then 0 else RightUsed(s[..|s| - 1]) + RightStep(s[|s| - 1])
  }

  function Weight(s: seq<EditType>): nat {
    if s == [] then 0 else Weight(s[..|s| - 1]) + EditWeight(s[|s| - 1])
  }

  /** The k-th edit is a match only where the two lines it stands at are equal. */
  ghost predicate MatchesEqual<T>(s: seq<EditType>, left: seq<T>, right: seq<T>, k: nat)
    requires k < |s|
  {
    s[k] == Match ==>
      && LeftUsed(s[..k]) < |left|
      && RightUsed(s[..k]) < |right|
      && left[LeftUsed(s[..k])] == right[RightUsed(s[..k])]
  }

  /** s aligns the first i lines of left with the first j lines of right. */
  ghost predicate Aligns<T>(s: seq<EditType>, left: seq<T>, right: seq<T>, i: nat, j: nat) {
    && LeftUsed(s) == i <= |left|
    && RightUsed(s) == j <= |right|
    && forall k | 0 <= k < |s| :: MatchesEqual(s, left, right, k)
  }

  /** s consumes exactly left, produces exactly right, and keeps a line only where the two sides agree. */
  ghost predicate IsScript<T>(s: seq<EditType>, left: seq<T>, right: seq<T>) {
    Aligns(s, left, right, |left|, |right|)
  }

  lemma AlignsAppend<T>(s: seq<EditType>, e: EditType, left: seq<T>, right: seq<T>, i: nat, j: nat)
    requires Aligns(s, left, right, i, j)
    requires e != Add ==> i < |left|
    requires e != Remove ==> j < |right|
    requires e == Match ==> left[i] == right[j]
    ensures Aligns(s + [e], left, right, i + LeftStep(e), j + RightStep(e))
    ensures Weight(s + [e]) == Weight(s) + EditWeight(e)
  {
    var t := s + [e];
    assert t[..|t| - 1] == s;
    forall k | 0 <= k < |t| ensures MatchesEqual(t, left, right, k) {
      if k < |s| {
        assert MatchesEqual(s, left, right, k);
        assert t[..k] == s[..k];
      } else {
        assert t[..k] == s;
      }
    }
  }

  lemma AlignsInit<T>(s: seq<EditType>, left: seq<T>, right: seq<T>, i: nat, j: nat)
    requires Aligns(s, left, right, i, j) && s != []
    ensures var e := s[|s| - 1];
            && (e != Add ==> i > 0)
            && (e != Remove ==> j > 0)
            && (e == Match ==> left[i - 1] == right[j - 1])
            && Aligns(s[..|s| - 1], left, right, i - LeftStep(e), j - RightStep(e))
  {
    var t := s[..|s| - 1];
    assert MatchesEqual(s, left, right, |s| - 1);
    forall k | 0 <= k < |t| ensures MatchesEqual(t, left, right, k) {
      assert MatchesEqual(s, left, right, k);
      assert t[..k] == s[..k];
    }
  }

  // ---------------------------------------------------------------- the table

  /** The choice made at a mismatching cell from its three neighbours. */
  function Choice(add: nat, remove: nat, replace: nat): EditType {
    if add < remove && add < replace then Add
    else if remove < add && remove < replace then Remove
    else Replace
  }

  function Chosen(add: nat, remove: nat, replace: nat): nat {
    match Choice(add, remove, replace)
    case Add => add + INDEL
    case Remove => remove + INDEL
    case _ => replace + REPLACE
  }

  function Cost<T(==)>(left: seq<T>, right: seq<T>, i: nat, j: nat): nat
    requires i <= |left| && j <= |right|
    decreases i + j
  {
    if j == 0 then i * INDEL
    else if i == 0 then j * INDEL
    else if left[i - 1] == right[j - 1] then Cost(left, right, i - 1, j - 1)
    else Chosen(Cost(left, right, i, j - 1), Cost(left, right, i - 1, j), Cost(left, right, i - 1, j - 1))
  }

  function Move<T(==)>(left: seq<T>, right: seq<T>, i: nat, j: nat): EditType
    requires i <= |left| && j <= |right|
  {
    if j == 0 then Remove
    else if i == 0 then Add
    else if left[i - 1] == right[j - 1] then Match
    else Choice(Cost(left, right, i, j - 1), Cost(left, right, i - 1, j), Cost(left, right, i - 1, j - 1))
  }

  /** Reading back one step stays inside the table, and the cell costs its predecessor plus the step. */
  lemma CostStep<T>(left: seq<T>, right: seq<T>, i: nat, j: nat)
    requires i <= |left| && j <= |right| && i + j > 0
    ensures var m := Move(left, right, i, j);
            && LeftStep(m) <= i && RightStep(m) <= j
            && (m == Match ==> left[i - 1] == right[j - 1])
            && Cost(left, right, i, j) == Cost(left, right, i - LeftStep(m), j - RightStep(m)) + EditWeight(m)
  {
  }

  /** The script read back from cell (i, j). */
  function Path<T(==)>(left: seq<T>, right: seq<T>, i: nat, j: nat): seq<EditType>
    requires i <= |left| && j <= |right|
    decreases i + j
  {
    if i == 0 && j == 0 then []
    else
      var m := Move(left, right, i, j);
      Path(left, right, i - LeftStep(m), j - RightStep(m)) + [m]
  }

  lemma StepBack<T>(left: seq<T>, right: seq<T>, i: nat, j: nat) returns (m: EditType, i': nat, j': nat)
    requires i <= |left| && j <= |right| && i + j > 0
    ensures i' + LeftStep(m) == i && j' + RightStep(m) == j
    ensures m == Match ==> left[i'] == right[j']
    ensures Path(left, right, i, j) == Path(left, right, i', j') + [m]
    ensures Cost(left, right, i, j) == Cost(left, right, i', j') + EditWeight(m)
  {
    CostStep(left, right, i, j);
    m := Move(left, right, i, j);
    i', j' := i - LeftStep(m), j - RightStep(m);
  }

  function Edits<T(==)>(left: seq<T>, right: seq<T>): seq<EditType> {
    Path(left, right, |left|, |right|)
  }

  // ---------------------------------------------------------------- the script is valid and priced by the table

  lemma {:induction false} PathAligns<T>(left: seq<T>, right: seq<T>, i: nat, j: nat)
    requires i <= |left| && j <= |right|
    ensures Aligns(Path(left, right, i, j), left, right, i, j)
    ensures Weight(Path(left, right, i, j)) == Cost(left, right, i, j)
    decreases i + j
  {
    if i + j > 0 {
      var m, i', j' := StepBack(left, right, i, j);
      PathAligns(left, right, i', j');
      AlignsAppend(Path(left, right, i', j'), m, left, right, i', j');
    }
  }

  function Min(a: nat, b: nat): nat { if a < b then a else b }
  function Distance(a: nat, b: nat): nat { if a < b then b - a else a - b }

  /** A cell never costs more than replacing along the diagonal and adding or removing the surplus. */
  lemma {:induction false} CostUpperBound<T>(left: seq<T>, right: seq<T>, i: nat, j: nat)
    requires i <= |left| && j <= |right|
    ensures Cost(left, right, i, j) <= INDEL * Distance(i, j) + REPLACE * Min(i, j)
    decreases i + j
  {
    if i > 0 && j > 0 {
      CostUpperBound(left, right, i - 1, j - 1);
    }
  }

  /** A script is free exactly when it is all matches. */
  lemma {:induction false} FreeIffAllMatch(s: seq<EditType>)
    ensures Weight(s) == 0 <==> forall k | 0 <= k < |s| :: s[k] == Match
  {
    if s != [] {
      var t := s[..|s| - 1];
      FreeIffAllMatch(t);
      if forall k | 0 <= k < |t| :: t[k] == Match {
        assert Weight(t) == 0;
      } else {
        var k :| 0 <= k < |t| && t[k] != Match;
        assert s[k] != Match;
      }
    }
  }

  lemma {:induction false} AllMatchUsed(s: seq<EditType>)
    requires forall k | 0 <= k < |s| :: s[k] == Match
    ensures LeftUsed(s) == |s| && RightUsed(s) == |s|
  {
    if s != [] { AllMatchUsed(s[..|s| - 1]); }
  }

  lemma {:induction false} EqualPrefixesFree<T>(text: seq<T>, i: nat)
    requires i <= |text|
    ensures Cost(text, text, i, i) == 0
  {
    if i > 0 { EqualPrefixesFree(text, i - 1); }
  }

  /** The script is all matches exactly when the inputs are equal. */
  lemma AllMatchIffEqual<T>(left: seq<T>, right: seq<T>)
    ensures (forall k | 0 <= k < |Edits(left, right)| :: Edits(left, right)[k] == Match) <==> left == right
  {
    var s := Edits(left, right);
    PathAligns(left, right, |left|, |right|);
    FreeIffAllMatch(s);
    if left == right {
      EqualPrefixesFree(left, |left|);
    }
    if forall k | 0 <= k < |s| :: s[k] == Match {
      AllMatchUsed(s);
      forall k | 0 <= k < |left| ensures left[k] == right[k] {
        assert MatchesEqual(s, left, right, k);
        AllMatchUsed(s[..k]);
      }
    }
  }

  /** The script read back is valid, priced by the last cell, and no dearer than replacing along the diagonal. */
  lemma EditsAreAScript<T>(left: seq<T>, right: seq<T>)
    ensures IsScript(Edits(left, right), left, right)
    ensures Weight(Edits(left, right)) == Cost(left, right, |left|, |right|)
    ensures Cost(left, right, |left|, |right|) <= INDEL * Distance(|left|, |right|) + REPLACE * Min(|left|, |right|)
  {
    PathAligns(left, right, |left|, |right|);
    CostUpperBound(left, right, |left|, |right|);
  }

  // ---------------------------------------------------------------- the optimum

  /** The least weight of any script aligning the two prefixes (see OptimumIsLeast). */
  function Optimum<T(==)>(left: seq<T>, right: seq<T>, i: nat, j: nat): nat
    requires i <= |left| && j <= |right|
    decreases i + j
  {
    if j == 0 then i * INDEL
    else if i == 0 then j * INDEL
    else
      var diagonal := Optimum(left, right, i - 1, j - 1) + if left[i - 1] == right[j - 1] then 0 else REPLACE;
      Min(diagonal, INDEL + Min(Optimum(left, right, i, j - 1), Optimum(left, right, i - 1, j)))
  }

  lemma {:induction false} OptimumIsLowerBound<T>(s: seq<EditType>, left: seq<T>, right: seq<T>, i: nat, j: nat)
    requires Aligns(s, left, right, i, j)
    ensures Optimum(left, right, i, j) <= Weight(s)
    decreases |s|
  {
    if s != [] {
      AlignsInit(s, left, right, i, j);
      hide Aligns, Optimum;
      var e := s[|s| - 1];
      OptimumBelowStep(left, right, i, j, e);
      OptimumIsLowerBound(s[..|s| - 1], left, right, i - LeftStep(e), j - RightStep(e));
    }
  }

  /** A last edit costs at least what it adds to the optimum before it. */
  lemma OptimumBelowStep<T>(left: seq<T>, right: seq<T>, i: nat, j: nat, e: EditType)
    requires i <= |left| && j <= |right| && LeftStep(e) <= i && RightStep(e) <= j
    requires e == Match ==> left[i - 1] == right[j - 1]
    ensures Optimum(left, right, i, j) <= Optimum(left, right, i - LeftStep(e), j - RightStep(e)) + EditWeight(e)
  {
  }

  lemma {:induction false} OptimumIsAttained<T>(left: seq<T>, right: seq<T>, i: nat, j: nat) returns (s: seq<EditType>)
    requires i <= |left| && j <= |right|
    ensures Aligns(s, left, right, i, j) && Weight(s) == Optimum(left, right, i, j)
    decreases i + j
  {
    hide Optimum, Aligns, Weight, EditWeight;
    if i == 0 && j == 0 {
      s := [];
      NothingIsOptimal(left, right);
    } else {
      var e := BestStep(left, right, i, j);
      var i', j' := i - LeftStep(e), j - RightStep(e);
      var t := OptimumIsAttained(left, right, i', j');
      AlignsAppend(t, e, left, right, i', j');
      s := t + [e];
    }
  }

  lemma NothingIsOptimal<T>(left: seq<T>, right: seq<T>)
    ensures Aligns([], left, right, 0, 0) && Weight([]) == 0 == Optimum(left, right, 0, 0)
  {
  }

  /** Some last edit leaves a prefix at its own optimum. */
  lemma BestStep<T>(left: seq<T>, right: seq<T>, i: nat, j: nat) returns (e: EditType)
    requires i <= |left| && j <= |right| && i + j > 0
    ensures LeftStep(e) <= i && RightStep(e) <= j && (e == Match ==> left[i - 1] == right[j - 1])
    ensures Optimum(left, right, i, j) == Optimum(left, right, i - LeftStep(e), j - RightStep(e)) + EditWeight(e)
  {
    if j == 0 { e := Remove; }
    else if i == 0 { e := Add; }
    else if Optimum(left, right, i, j) == Optimum(left, right, i, j - 1) + INDEL { e := Add; }
    else if Optimum(left, right, i, j) == Optimum(left, right, i - 1, j) + INDEL { e := Remove; }
    else { e := if left[i - 1] == right[j - 1] then Match else Replace; }
  }

  ghost predicate IsLeastWeight<T>(w: nat, left: seq<T>, right: seq<T>, i: nat, j: nat) {
    && (exists s :: Aligns(s, left, right, i, j) && Weight(s) == w)
    && (forall s | Aligns(s, left, right, i, j) :: w <= Weight(s))
  }

  lemma OptimumIsLeast<T>(left: seq<T>, right: seq<T>, i: nat, j: nat)
    requires i <= |left| && j <= |right|
    ensures forall w: nat :: IsLeastWeight(w, left, right, i, j) <==> w == Optimum(left, right, i, j)
  {
    var best := OptimumIsAttained(left, right, i, j);
    forall s | Aligns(s, left, right, i, j) ensures Optimum(left, right, i, j) <= Weight(s) {
      OptimumIsLowerBound(s, left, right, i, j);
    }
  }

  lemma OptimumBelowCost<T>(left: seq<T>, right: seq<T>, i: nat, j: nat)
    requires i <= |left| && j <= |right|
    ensures Optimum(left, right, i, j) <= Cost(left, right, i, j)
  {
    PathAligns(left, right, i, j);
    OptimumIsLowerBound(Path(left, right, i, j), left, right, i, j);
  }

  // ---------------------------------------------------------------- when the table is optimal

  /** Neighbouring optima differ by at most one insertion or removal. */
  lemma {:induction false} OptimumIsSmooth<T>(left: seq<T>, right: seq<T>, i: nat, j: nat)
    requires i <= |left| && j <= |right|
    ensures i > 0 ==> Optimum(left, right, i - 1, j) <= Optimum(left, right, i, j) + INDEL
    ensures j > 0 ==> Optimum(left, right, i, j - 1) <= Optimum(left, right, i, j) + INDEL
    decreases i + j
  {
    if i > 0 && j > 0 {
      OptimumIsSmooth(left, right, i - 1, j);
      OptimumIsSmooth(left, right, i, j - 1);
      OptimumIsSmooth(left, right, i - 1, j - 1);
    }
  }

  /** The exchange argument: keeping an equal pair is never worse than any other last step. */
  lemma MatchIsNeverWorse<T>(left: seq<T>, right: seq<T>, i: nat, j: nat)
    requires 0 < i <= |left| && 0 < j <= |right| && left[i - 1] == right[j - 1]
    ensures Optimum(left, right, i, j) == Optimum(left, right, i - 1, j - 1)
  {
    OptimumIsSmooth(left, right, i, j - 1);
    OptimumIsSmooth(left, right, i - 1, j);
  }

  /** Neither of adding and removing is below both others, but one of them is no more than replacing. */
  predicate MissesCheaper(add: nat, remove: nat, replace: nat) {
    add == remove <= replace || Min(add, remove) == replace
  }

  /** The mismatching cell (i, j) takes the replace branch although adding or removing costs no more than replacing. */
  ghost predicate FallsThrough<T>(left: seq<T>, right: seq<T>, i: nat, j: nat) {
    && 0 < i <= |left| && 0 < j <= |right|
    && left[i - 1] != right[j - 1]
    && MissesCheaper(Cost(left, right, i, j - 1), Cost(left, right, i - 1, j), Cost(left, right, i - 1, j - 1))
  }

  /** Adding and removing tie below replacing: the case the strict comparisons of the branch test miss. */
  ghost predicate TiesBelowReplace<T>(left: seq<T>, right: seq<T>, i: nat, j: nat) {
    && 0 < i <= |left| && 0 < j <= |right|
    && left[i - 1] != right[j - 1]
    && Cost(left, right, i, j - 1) == Cost(left, right, i - 1, j) < Cost(left, right, i - 1, j - 1)
  }

  /** Every cell holds the least weight of any script between its two prefixes. */
  ghost predicate OptimalEverywhere<T>(left: seq<T>, right: seq<T>) {
    forall i: nat, j: nat | i <= |left| && j <= |right| :: IsLeastWeight(Cost(left, right, i, j), left, right, i, j)
  }

  lemma ChosenIsLeast(add: nat, remove: nat, replace: nat)
    ensures Chosen(add, remove, replace) == Min(replace + REPLACE, INDEL + Min(add, remove))
            <==> !MissesCheaper(add, remove, replace)
  {
  }

  lemma {:induction false} OptimalUpTo<T>(left: seq<T>, right: seq<T>, i: nat, j: nat)
    requires i <= |left| && j <= |right|
    requires forall a: nat, b: nat | a <= i && b <= j :: !FallsThrough(left, right, a, b)
    ensures Cost(left, right, i, j) == Optimum(left, right, i, j)
    decreases i + j
  {
    hide FallsThrough, Chosen;
    if i > 0 && j > 0 {
      OptimalUpTo(left, right, i - 1, j - 1);
      if left[i - 1] == right[j - 1] {
        MatchIsNeverWorse(left, right, i, j);
      } else {
        OptimalUpTo(left, right, i, j - 1);
        OptimalUpTo(left, right, i - 1, j);
        OptimalStep(left, right, i, j);
      }
    }
  }

  lemma OptimalStep<T>(left: seq<T>, right: seq<T>, i: nat, j: nat)
    requires 0 < i <= |left| && 0 < j <= |right| && left[i - 1] != right[j - 1]
    requires !FallsThrough(left, right, i, j)
    requires Cost(left, right, i, j - 1) == Optimum(left, right, i, j - 1)
    requires Cost(left, right, i - 1, j) == Optimum(left, right, i - 1, j)
    requires Cost(left, right, i - 1, j - 1) == Optimum(left, right, i - 1, j - 1)
    ensures Cost(left, right, i, j) == Optimum(left, right, i, j)
  {
    hide Cost, Optimum, Chosen, Choice;
    CostAtMismatch(left, right, i, j);
    OptimumAtMismatch(left, right, i, j);
    ChosenIsLeast(Cost(left, right, i, j - 1), Cost(left, right, i - 1, j), Cost(left, right, i - 1, j - 1));
  }

  lemma OptimumAtMismatch<T>(left: seq<T>, right: seq<T>, i: nat, j: nat)
    requires 0 < i <= |left| && 0 < j <= |right| && left[i - 1] != right[j - 1]
    ensures Optimum(left, right, i, j) == Min(Optimum(left, right, i - 1, j - 1) + REPLACE,
                                              INDEL + Min(Optimum(left, right, i, j - 1), Optimum(left, right, i - 1, j)))
  {
  }

  lemma FallingThroughLoses<T>(left: seq<T>, right: seq<T>, i: nat, j: nat)
    requires FallsThrough(left, right, i, j)
    ensures Optimum(left, right, i, j) < Cost(left, right, i, j)
  {
    hide Cost, Optimum, Chosen, Choice;
    var add, remove, replace := Cost(left, right, i, j - 1), Cost(left, right, i - 1, j), Cost(left, right, i - 1, j - 1);
    OptimumBelowCost(left, right, i, j - 1);
    OptimumBelowCost(left, right, i - 1, j);
    OptimumBelowNeighbours(left, right, i, j, add, remove);
    CostAtMismatch(left, right, i, j);
    CheaperNeighbourWins(Optimum(left, right, i, j), add, remove, replace);
  }

  lemma CostAtMismatch<T>(left: seq<T>, right: seq<T>, i: nat, j: nat)
    requires 0 < i <= |left| && 0 < j <= |right| && left[i - 1] != right[j - 1]
    ensures Cost(left, right, i, j)
         == Chosen(Cost(left, right, i, j - 1), Cost(left, right, i - 1, j), Cost(left, right, i - 1, j - 1))
  {
  }

  lemma CheaperNeighbourWins(optimum: nat, add: nat, remove: nat, replace: nat)
    requires optimum <= add + INDEL && optimum <= remove + INDEL
    requires MissesCheaper(add, remove, replace)
    ensures optimum < Chosen(add, remove, replace)
  {
  }

  lemma OptimumBelowNeighbours<T>(left: seq<T>, right: seq<T>, i: nat, j: nat, add: nat, remove: nat)
    requires 0 < i <= |left| && 0 < j <= |right|
    requires Optimum(left, right, i, j - 1) <= add && Optimum(left, right, i - 1, j) <= remove
    ensures Optimum(left, right, i, j) <= add + INDEL && Optimum(left, right, i, j) <= remove + INDEL
  {
  }

  /** Exactly when every cell of the table is the true minimum, with no bound on the inputs. */
  lemma OptimalEverywhereIff<T>(left: seq<T>, right: seq<T>)
    ensures OptimalEverywhere(left, right) <==> forall i: nat, j: nat :: !FallsThrough(left, right, i, j)
  {
    if forall i: nat, j: nat :: !FallsThrough(left, right, i, j) {
      forall i: nat, j: nat | i <= |left| && j <= |right|
        ensures IsLeastWeight(Cost(left, right, i, j), left, right, i, j)
      {
        OptimalUpTo(left, right, i, j);
        OptimumIsLeast(left, right, i, j);
      }
    }
    if i: nat, j: nat :| FallsThrough(left, right, i, j) {
      FallingThroughLoses(left, right, i, j);
      OptimumIsLeast(left, right, i, j);
    }
  }

  // ---------------------------------------------------------------- parity: two-way ties with replace do not happen

  function Replacements(s: seq<EditType>): nat {
    if s == [] then 0 else Replacements(s[..|s| - 1]) + if s[|s| - 1] == Replace then 1 else 0
  }

  function Indels(s: seq<EditType>): nat {
    if s == [] then 0 else Indels(s[..|s| - 1]) + if s[|s| - 1] == Add || s[|s| - 1] == Remove then 1 else 0
  }

  /** Modulo 100000 a weight counts the replacements, and the parity of the insertions and removals is that of the two lengths. */
  lemma {:induction false} WeightSplits(s: seq<EditType>)
    ensures Weight(s) == INDEL * Indels(s) + REPLACE * Replacements(s)
    ensures Replacements(s) <= Min(LeftUsed(s), RightUsed(s))
    ensures LeftUsed(s) + RightUsed(s) == 2 * |s| - Indels(s)
  {
    if s != [] { WeightSplits(s[..|s| - 1]); }
  }

  lemma EqualCostsEqualParts(d1: nat, p1: nat, d2: nat, p2: nat)
    requires p1 < INDEL && p2 < INDEL
    requires INDEL * d1 + REPLACE * p1 == INDEL * d2 + REPLACE * p2
    ensures d1 == d2 && p1 == p2
  {
    var k := d1 + p1 - d2 - p2;
    assert INDEL * k == p2 - p1;
    assert k == 0;
  }

  lemma OddSumOfTwo(a: nat, b: nat, n: nat)
    requires (2 * n - a - b) % 2 == 1
    ensures a != b
  {
  }

  lemma ScriptParitySeparates(s: seq<EditType>, t: seq<EditType>)
    requires Min(LeftUsed(s), RightUsed(s)) < INDEL && Min(LeftUsed(t), RightUsed(t)) < INDEL
    requires (LeftUsed(s) + RightUsed(s) + LeftUsed(t) + RightUsed(t)) % 2 == 1
    ensures Weight(s) != Weight(t)
  {
    WeightSplits(s);
    WeightSplits(t);
    OddSumOfTwo(Indels(s), Indels(t), |s| + |t|);
    if Weight(s) == Weight(t) {
      EqualCostsEqualParts(Indels(s), Replacements(s), Indels(t), Replacements(t));
    }
  }

  lemma ParitySeparates<T>(left: seq<T>, right: seq<T>, i: nat, j: nat, i': nat, j': nat)
    requires i <= |left| && j <= |right| && i' <= |left| && j' <= |right|
    requires Min(|left|, |right|) < INDEL && (i + j + i' + j') % 2 == 1
    ensures Cost(left, right, i, j) != Cost(left, right, i', j')
  {
    PathAligns(left, right, i, j);
    PathAligns(left, right, i', j');
    ScriptParitySeparates(Path(left, right, i, j), Path(left, right, i', j'));
  }

  /** With a shorter side under 100000 lines, neither adding nor removing ever costs the same as replacing. */
  lemma NoTieWithReplace<T>(left: seq<T>, right: seq<T>, i: nat, j: nat)
    requires 0 < i <= |left| && 0 < j <= |right| && Min(|left|, |right|) < INDEL
    ensures Cost(left, right, i, j - 1) != Cost(left, right, i - 1, j - 1)
    ensures Cost(left, right, i - 1, j) != Cost(left, right, i - 1, j - 1)
  {
    ParitySeparates(left, right, i, j - 1, i - 1, j - 1);
    ParitySeparates(left, right, i - 1, j, i - 1, j - 1);
  }

  /** Below the size bound the table is optimal in every cell exactly when adding and removing never tie below replacing. */
  lemma OptimalIffNoTie<T>(left: seq<T>, right: seq<T>)
    requires Min(|left|, |right|) < INDEL
    ensures OptimalEverywhere(left, right) <==> forall i: nat, j: nat :: !TiesBelowReplace(left, right, i, j)
  {
    OptimalEverywhereIff(left, right);
    forall i: nat, j: nat ensures FallsThrough(left, right, i, j) <==> TiesBelowReplace(left, right, i, j) {
      if 0 < i <= |left| && 0 < j <= |right| {
        NoTieWithReplace(left, right, i, j);
      }
    }
  }

  /** A tie met while reading the script back always costs: the returned script is then not a cheapest one. */
  lemma {:induction false} TieOnPathIsNotOptimal<T>(left: seq<T>, right: seq<T>, i: nat, j: nat, a: nat, b: nat)
    requires i <= |left| && j <= |right|
    requires OnPath(left, right, i, j, a, b) && FallsThrough(left, right, a, b)
    ensures Optimum(left, right, i, j) < Cost(left, right, i, j)
    decreases i + j
  {
    if i == a && j == b {
      FallingThroughLoses(left, right, i, j);
    } else {
      hide Cost, Optimum;
      var m := Move(left, right, i, j);
      CostStep(left, right, i, j);
      OptimumBelowStep(left, right, i, j, m);
      TieOnPathIsNotOptimal(left, right, i - LeftStep(m), j - RightStep(m), a, b);
    }
  }

  /** Reading back from (i, j) passes through (a, b). */
  ghost predicate OnPath<T>(left: seq<T>, right: seq<T>, i: nat, j: nat, a: nat, b: nat)
    requires i <= |left| && j <= |right|
    decreases i + j
  {
    || (i == a && j == b)
    || (i + j > 0 &&
        var m := Move(left, right, i, j);
        OnPath(left, right, i - LeftStep(m), j - RightStep(m), a, b))
  }

  // ---------------------------------------------------------------- when the returned script is optimal

  /**
   Some cheapest way to cell (i, j) that keeps every equal pair it comes to meets no cell that falls through: on the borders there
   is nothing to miss, an equal pair is kept, and at a mismatch some neighbour on a cheapest way is itself reached so.
   */
  predicate Clean<T(==)>(left: seq<T>, right: seq<T>, i: nat, j: nat)
    requires i <= |left| && j <= |right|
    decreases i + j
  {
    if i == 0 || j == 0 then true
    else if left[i - 1] == right[j - 1] then Clean(left, right, i - 1, j - 1)
    else
      && !MissesCheaper(Cost(left, right, i, j - 1), Cost(left, right, i - 1, j), Cost(left, right, i - 1, j - 1))
      && (|| (Optimum(left, right, i, j) == Optimum(left, right, i, j - 1) + INDEL && Clean(left, right, i, j - 1))
          || (Optimum(left, right, i, j) == Optimum(left, right, i - 1, j) + INDEL && Clean(left, right, i - 1, j))
          || (Optimum(left, right, i, j) == Optimum(left, right, i - 1, j - 1) + REPLACE && Clean(left, right, i - 1, j - 1)))
  }

  /** The cell (i, j), and with it the script read back from it, is optimal exactly when it can be reached cleanly. */
  lemma {:induction false} ResultOptimalIff<T>(left: seq<T>, right: seq<T>, i: nat, j: nat)
    requires i <= |left| && j <= |right|
    ensures Cost(left, right, i, j) == Optimum(left, right, i, j) <==> Clean(left, right, i, j)
    decreases i + j
  {
    hide Cost, Optimum, Clean;
    if i == 0 || j == 0 {
      BorderIsClean(left, right, i, j);
    } else {
      ResultOptimalIff(left, right, i - 1, j - 1);
      if left[i - 1] == right[j - 1] {
        MatchIsNeverWorse(left, right, i, j);
        CleanAtMatch(left, right, i, j);
      } else {
        ResultOptimalIff(left, right, i, j - 1);
        ResultOptimalIff(left, right, i - 1, j);
        CleanStep(left, right, i, j);
      }
    }
  }

  lemma BorderIsClean<T>(left: seq<T>, right: seq<T>, i: nat, j: nat)
    requires i <= |left| && j <= |right| && (i == 0 || j == 0)
    ensures Cost(left, right, i, j) == Optimum(left, right, i, j) && Clean(left, right, i, j)
  {
  }

  lemma CleanAtMatch<T>(left: seq<T>, right: seq<T>, i: nat, j: nat)
    requires 0 < i <= |left| && 0 < j <= |right| && left[i - 1] == right[j - 1]
    ensures Cost(left, right, i, j) == Cost(left, right, i - 1, j - 1) && (Clean(left, right, i, j) <==> Clean(left, right, i - 1, j - 1))
  {
  }

  lemma CleanStep<T>(left: seq<T>, right: seq<T>, i: nat, j: nat)
    requires 0 < i <= |left| && 0 < j <= |right| && left[i - 1] != right[j - 1]
    requires Cost(left, right, i, j - 1) == Optimum(left, right, i, j - 1) <==> Clean(left, right, i, j - 1)
    requires Cost(left, right, i - 1, j) == Optimum(left, right, i - 1, j) <==> Clean(left, right, i - 1, j)
    requires Cost(left, right, i - 1, j - 1) == Optimum(left, right, i - 1, j - 1) <==> Clean(left, right, i - 1, j - 1)
    ensures Cost(left, right, i, j) == Optimum(left, right, i, j) <==> Clean(left, right, i, j)
  {
    hide Cost, Optimum, Chosen, Choice;
    OptimumBelowCost(left, right, i, j - 1);
    OptimumBelowCost(left, right, i - 1, j);
    OptimumBelowCost(left, right, i - 1, j - 1);
    OptimumBelowCost(left, right, i, j);
    CostAtMismatch(left, right, i, j);
    OptimumAtMismatch(left, right, i, j);
    ChosenIsLeast(Cost(left, right, i, j - 1), Cost(left, right, i - 1, j), Cost(left, right, i - 1, j - 1));
    if FallsThrough(left, right, i, j) { FallingThroughLoses(left, right, i, j); }
  }

  /** After k edits the script stands at no cell that falls through, and it came to an equal pair by a match. */
  ghost predicate StopsCleanly<T>(s: seq<EditType>, left: seq<T>, right: seq<T>, k: nat)
    requires k <= |s|
  {
    var a, b := LeftUsed(s[..k]), RightUsed(s[..k]);
    && !FallsThrough(left, right, a, b)
    && (0 < a <= |left| && 0 < b <= |right| && left[a - 1] == right[b - 1] ==> k > 0 && s[k - 1] == Match)
  }

  /** A cheapest script to (i, j) that stops cleanly all the way. */
  ghost predicate IsCleanScript<T>(s: seq<EditType>, left: seq<T>, right: seq<T>, i: nat, j: nat)
    requires i <= |left| && j <= |right|
  {
    && Aligns(s, left, right, i, j) && Weight(s) == Optimum(left, right, i, j)
    && forall k | 0 <= k <= |s| :: StopsCleanly(s, left, right, k)
  }

  /** The same said about scripts: the result is optimal exactly when some clean script exists, and then it is one itself. */
  lemma OptimalIffCleanScript<T>(left: seq<T>, right: seq<T>, i: nat, j: nat)
    requires i <= |left| && j <= |right|
    ensures Cost(left, right, i, j) == Optimum(left, right, i, j) <==> exists s :: IsCleanScript(s, left, right, i, j)
    ensures Cost(left, right, i, j) == Optimum(left, right, i, j) <==> IsCleanScript(Path(left, right, i, j), left, right, i, j)
  {
    if Cost(left, right, i, j) == Optimum(left, right, i, j) {
      OptimalPathIsClean(left, right, i, j);
    }
    if s :| IsCleanScript(s, left, right, i, j) {
      CleanScriptIsFound(s, left, right, i, j);
    }
  }

  lemma {:induction false} OptimalPathIsClean<T>(left: seq<T>, right: seq<T>, i: nat, j: nat)
    requires i <= |left| && j <= |right| && Cost(left, right, i, j) == Optimum(left, right, i, j)
    ensures IsCleanScript(Path(left, right, i, j), left, right, i, j)
    decreases i + j
  {
    hide Cost, Optimum, Path, Aligns, Weight, Move, StopsCleanly, FallsThrough, LeftStep, RightStep;
    PathAligns(left, right, i, j);
    var s := Path(left, right, i, j);
    if FallsThrough(left, right, i, j) { FallingThroughLoses(left, right, i, j); }
    LastStopIsClean(left, right, i, j);
    if i + j > 0 {
      var m := Move(left, right, i, j);
      CostStep(left, right, i, j);
      var i', j' := i - LeftStep(m), j - RightStep(m);
      PathEnds(left, right, i, j);
      OptimumBelowStep(left, right, i, j, m);
      OptimumBelowCost(left, right, i', j');
      OptimalPathIsClean(left, right, i', j');
      forall k | 0 <= k <= |s| ensures StopsCleanly(s, left, right, k) {
        if k < |s| { StopsInPrefix(s, left, right, k); }
      }
    } else {
      EmptyPath(left, right);
    }
  }

  lemma PathEnds<T>(left: seq<T>, right: seq<T>, i: nat, j: nat)
    requires i <= |left| && j <= |right| && i + j > 0
    ensures var m := Move(left, right, i, j);
            && LeftStep(m) <= i && RightStep(m) <= j
            && Path(left, right, i, j) != []
            && Path(left, right, i, j)[..|Path(left, right, i, j)| - 1] == Path(left, right, i - LeftStep(m), j - RightStep(m))
  {
    CostStep(left, right, i, j);
    hide Move, Cost;
  }

  lemma EmptyPath<T>(left: seq<T>, right: seq<T>)
    ensures Path(left, right, 0, 0) == []
  {
  }

  lemma LastStopIsClean<T>(left: seq<T>, right: seq<T>, i: nat, j: nat)
    requires i <= |left| && j <= |right| && !FallsThrough(left, right, i, j)
    ensures StopsCleanly(Path(left, right, i, j), left, right, |Path(left, right, i, j)|)
  {
    PathAligns(left, right, i, j);
    var s := Path(left, right, i, j);
    assert s[..|s|] == s;
    hide Cost, FallsThrough;
  }

  /** A stop inside a script is the same stop of the script without its last edit. */
  lemma StopsInPrefix<T>(s: seq<EditType>, left: seq<T>, right: seq<T>, k: nat)
    requires k < |s|
    ensures StopsCleanly(s, left, right, k) <==> StopsCleanly(s[..|s| - 1], left, right, k)
  {
    hide FallsThrough;
    assert s[..|s| - 1][..k] == s[..k];
  }

  lemma {:induction false} CleanScriptIsFound<T>(s: seq<EditType>, left: seq<T>, right: seq<T>, i: nat, j: nat)
    requires i <= |left| && j <= |right| && IsCleanScript(s, left, right, i, j)
    ensures Cost(left, right, i, j) == Optimum(left, right, i, j)
    decreases |s|
  {
    hide Cost, Optimum, Aligns, StopsCleanly, FallsThrough, LeftStep, RightStep;
    if s == [] {
      NothingToAlign(left, right, i, j);
    } else {
      var e, t := s[|s| - 1], s[..|s| - 1];
      AlignsInit(s, left, right, i, j);
      StepsBack(left, right, i, j, e);
      var i', j' := i - LeftStep(e), j - RightStep(e);
      OptimumBelowStep(left, right, i, j, e);
      OptimumIsLowerBound(t, left, right, i', j');
      forall k | 0 <= k <= |t| ensures StopsCleanly(t, left, right, k) {
        StopsInPrefix(s, left, right, k);
      }
      CleanScriptIsFound(t, left, right, i', j');
      LastStop(s, left, right, i, j);
      CheapestLastStep(left, right, i, j, e);
    }
  }

  lemma NothingToAlign<T>(left: seq<T>, right: seq<T>, i: nat, j: nat)
    requires Aligns([], left, right, i, j)
    ensures i == j == 0 && Cost(left, right, 0, 0) == Optimum(left, right, 0, 0)
  {
  }

  lemma StepsBack<T>(left: seq<T>, right: seq<T>, i: nat, j: nat, e: EditType)
    requires (e != Add ==> i > 0) && (e != Remove ==> j > 0)
    ensures LeftStep(e) <= i && RightStep(e) <= j
  {
  }

  lemma LastStop<T>(s: seq<EditType>, left: seq<T>, right: seq<T>, i: nat, j: nat)
    requires Aligns(s, left, right, i, j) && StopsCleanly(s, left, right, |s|)
    ensures !FallsThrough(left, right, i, j)
    ensures 0 < i && 0 < j && left[i - 1] == right[j - 1] ==> s != [] && s[|s| - 1] == Match
  {
    hide FallsThrough;
    assert s[..|s|] == s;
  }

  /** From an optimal cell a cheapest step to a cell that does not fall through is priced right. */
  lemma CheapestLastStep<T>(left: seq<T>, right: seq<T>, i: nat, j: nat, e: EditType)
    requires i <= |left| && j <= |right| && LeftStep(e) <= i && RightStep(e) <= j && !FallsThrough(left, right, i, j)
    requires 0 < i && 0 < j ==> (e == Match <==> left[i - 1] == right[j - 1])
    requires e == Match ==> left[i - 1] == right[j - 1]
    requires var i', j' := i - LeftStep(e), j - RightStep(e);
      Cost(left, right, i', j') == Optimum(left, right, i', j') && Optimum(left, right, i, j) == Optimum(left, right, i', j') + EditWeight(e)
    ensures Cost(left, right, i, j) == Optimum(left, right, i, j)
  {
    hide Cost, Optimum, FallsThrough, Chosen, MissesCheaper;
    OptimumBelowCost(left, right, i, j);
    if 0 < i && 0 < j && left[i - 1] != right[j - 1] {
      CostWithoutFall(left, right, i, j);
    } else {
      CostOfOnlyStep(left, right, i, j, e);
    }
  }

  lemma CostWithoutFall<T>(left: seq<T>, right: seq<T>, i: nat, j: nat)
    requires 0 < i <= |left| && 0 < j <= |right| && left[i - 1] != right[j - 1] && !FallsThrough(left, right, i, j)
    ensures Cost(left, right, i, j) <= Cost(left, right, i, j - 1) + INDEL
    ensures Cost(left, right, i, j) <= Cost(left, right, i - 1, j) + INDEL
    ensures Cost(left, right, i, j) <= Cost(left, right, i - 1, j - 1) + REPLACE
  {
    hide Cost, Chosen;
    CostAtMismatch(left, right, i, j);
    ChosenIsLeast(Cost(left, right, i, j - 1), Cost(left, right, i - 1, j), Cost(left, right, i - 1, j - 1));
  }

  lemma CostOfOnlyStep<T>(left: seq<T>, right: seq<T>, i: nat, j: nat, e: EditType)
    requires i <= |left| && j <= |right| && LeftStep(e) <= i && RightStep(e) <= j
    requires i == 0 || j == 0 || (left[i - 1] == right[j - 1] && e == Match)
    ensures Cost(left, right, i, j) <= Cost(left, right, i - LeftStep(e), j - RightStep(e)) + EditWeight(e)
  {
  }

  lemma CostsOfSwappedPair<T>(p: T, q: T)
    requires p != q
    ensures Cost([p, q, p], [q, p, q], 1, 1) == REPLACE
    ensures Cost([p, q, p], [q, p, q], 2, 2) == 2 * REPLACE
    ensures Cost([p, q, p], [q, p, q], 2, 3) == INDEL && Cost([p, q, p], [q, p, q], 3, 2) == INDEL
  {
    var left, right := [p, q, p], [q, p, q];
    assert Cost(left, right, 1, 2) == INDEL && Cost(left, right, 2, 1) == INDEL;
  }

  /** The smallest failing shape: three replaces where remove, match, match, add would do. */
  lemma SwappedPairIsNotOptimal<T>(p: T, q: T)
    requires p != q
    ensures var left, right := [p, q, p], [q, p, q];
            && TiesBelowReplace(left, right, 3, 3)
            && Edits(left, right) == [Replace, Replace, Replace]
            && Cost(left, right, 3, 3) == 3 * REPLACE
            && Aligns([Remove, Match, Match, Add], left, right, 3, 3)
            && Weight([Remove, Match, Match, Add]) == 2 * INDEL
  {
    var left, right := [p, q, p], [q, p, q];
    CostsOfSwappedPair(p, q);
    CheaperForSwappedPair(p, q);
    hide Aligns, Weight, Cost;
    assert Path(left, right, 1, 1) == [Replace] && Path(left, right, 2, 2) == [Replace, Replace];
  }

  lemma CheaperForSwappedPair<T>(p: T, q: T)
    ensures Aligns([Remove, Match, Match, Add], [p, q, p], [q, p, q], 3, 3)
    ensures Weight([Remove, Match, Match, Add]) == 2 * INDEL
  {
    var left, right := [p, q, p], [q, p, q];
    assert Aligns([], left, right, 0, 0);
    AlignsAppend([], Remove, left, right, 0, 0);
    AlignsAppend([Remove], Match, left, right, 1, 0);
    AlignsAppend([Remove, Match], Match, left, right, 2, 1);
    AlignsAppend([Remove, Match, Match], Add, left, right, 3, 2);
    hide Aligns;
    assert [] + [Remove] == [Remove] && [Remove] + [Match] == [Remove, Match];
    assert [Remove, Match] + [Match] == [Remove, Match, Match];
    assert [Remove, Match, Match] + [Add] == [Remove, Match, Match, Add];
  }

  // ---------------------------------------------------------------- the code

  function Reversed<T>(s: seq<T>): seq<T> {
    if s == [] then [] else Reversed(s[1..]) + [s[0]]
  }

  lemma ReversedSnoc<T>(s: seq<T>, x: T)
    ensures Reversed(s + [x]) == [x] + Reversed(s)
  {
    if s != [] {
      assert (s + [x])[1..] == s[1..] + [x];
      ReversedSnoc(s[1..], x);
    }
  }

  /** Fills cell (l + 1, r + 1) of both tables from its three neighbours, and no other cell. */
  method FillCell<T(==)>(left: seq<T>, right: seq<T>, costs: array2<nat>, bestMove: array2<EditType>, l: nat, r: nat)
    requires l < |left| && r < |right| && IsTable(left, right, costs, bestMove)
    requires costs[l, r] == Cost(left, right, l, r)
    requires costs[l + 1, r] == Cost(left, right, l + 1, r)
    requires costs[l, r + 1] == Cost(left, right, l, r + 1)
    modifies costs, bestMove
    ensures costs[l + 1, r + 1] == Cost(left, right, l + 1, r + 1)
    ensures bestMove[l + 1, r + 1] == Move(left, right, l + 1, r + 1)
    ensures forall a: nat, b: nat | a <= |left| && b <= |right| && (a, b) != (l + 1, r + 1) ::
              costs[a, b] == old(costs[a, b])
    ensures forall a: nat, b: nat | a <= |left| && b <= |right| && (a, b) != (l + 1, r + 1) ::
              bestMove[a, b] == old(bestMove[a, b])
  {
    if left[l] == right[r] {
      costs[l + 1, r + 1] := costs[l, r];
      bestMove[l + 1, r + 1] := Match;
    } else {
      var add, remove, replace := costs[l + 1, r], costs[l, r + 1], costs[l, r];
      if add < remove && add < replace {
        costs[l + 1, r + 1] := add + INDEL;
        bestMove[l + 1, r + 1] := Add;
      } else if remove < add && remove < replace {
        costs[l + 1, r + 1] := remove + INDEL;
        bestMove[l + 1, r + 1] := Remove;
      } else {
        costs[l + 1, r + 1] := replace + REPLACE;
        bestMove[l + 1, r + 1] := Replace;
      }
    }
  }

  method FillRow<T(==)>(left: seq<T>, right: seq<T>, costs: array2<nat>, bestMove: array2<EditType>, l: nat)
    requires l < |left| && IsTable(left, right, costs, bestMove)
    requires FilledTo(left, right, costs, bestMove, l)
    modifies costs, bestMove
    ensures FilledTo(left, right, costs, bestMove, l + 1)
  {
    ghost var row := l + 1;
    for r := 0 to |right|
      invariant FilledTo(left, right, costs, bestMove, l)
      invariant forall b: nat {:trigger costs[row, b]} | b <= r :: costs[row, b] == Cost(left, right, row, b)
      invariant forall b: nat {:trigger bestMove[row, b]} | b <= r :: bestMove[row, b] == Move(left, right, row, b)
    {
      FillCell(left, right, costs, bestMove, l, r);
    }
  }

  ghost predicate IsTable<T>(left: seq<T>, right: seq<T>, costs: array2<nat>, bestMove: array2<EditType>) {
    && costs.Length0 == bestMove.Length0 == |left| + 1
    && costs.Length1 == bestMove.Length1 == |right| + 1
  }

  /** Rows 0..l are complete, and so is the first column. */
  ghost predicate FilledTo<T>(left: seq<T>, right: seq<T>, costs: array2<nat>, bestMove: array2<EditType>, l: nat)
    requires IsTable(left, right, costs, bestMove) && l <= |left|
    reads costs, bestMove
  {
    && (forall a: nat, b: nat {:trigger costs[a, b]} | a <= l && b <= |right| :: costs[a, b] == Cost(left, right, a, b))
    && (forall a: nat, b: nat {:trigger bestMove[a, b]} | a <= l && b <= |right| :: bestMove[a, b] == Move(left, right, a, b))
    && (forall a: nat | a <= |left| :: costs[a, 0] == a * INDEL && bestMove[a, 0] == Remove)
  }

  method FillTable<T(==)>(left: seq<T>, right: seq<T>) returns (costs: array2<nat>, bestMove: array2<EditType>)
    ensures fresh(costs) && fresh(bestMove) && IsTable(left, right, costs, bestMove)
    ensures FilledTo(left, right, costs, bestMove, |left|)
  {
    costs := new nat[|left| + 1, |right| + 1];
    bestMove := new EditType[|left| + 1, |right| + 1];
    for l := 0 to |left| + 1
      invariant forall a: nat | a < l :: costs[a, 0] == a * INDEL && bestMove[a, 0] == Remove
    {
      costs[l, 0] := l * INDEL;
      bestMove[l, 0] := Remove;
    }
    for r := 1 to |right| + 1
      invariant forall a: nat | a <= |left| :: costs[a, 0] == a * INDEL && bestMove[a, 0] == Remove
      invariant forall b: nat | 0 < b < r :: costs[0, b] == b * INDEL && bestMove[0, b] == Add
    {
      costs[0, r] := r * INDEL;
      bestMove[0, r] := Add;
    }
    for l := 0 to |left|
      invariant FilledTo(left, right, costs, bestMove, l)
    {
      FillRow(left, right, costs, bestMove, l);
    }
  }

  /**
   The script is a valid transformation of left into right, is priced by the last cell, is no cheaper than the optimum
   and no dearer than the diagonal bound, and is all matches exactly for equal inputs.
   */
  method CalculateOptimalEdits<T(==)>(left: seq<T>, right: seq<T>) returns (path: seq<EditType>)
    ensures path == Edits(left, right)
    ensures IsScript(path, left, right)
    ensures Optimum(left, right, |left|, |right|) <= Weight(path)
    ensures Weight(path) <= INDEL * Distance(|left|, |right|) + REPLACE * Min(|left|, |right|)
    ensures OptimalEverywhere(left, right) ==> IsLeastWeight(Weight(path), left, right, |left|, |right|)
    ensures IsLeastWeight(Weight(path), left, right, |left|, |right|) <==> Clean(left, right, |left|, |right|)
    ensures (forall k | 0 <= k < |path| :: path[k] == Match) <==> left == right
  {
    hide *;
    var costs, bestMove := FillTable(left, right);
    var best := [];
    var l: nat, r: nat := |left|, |right|;
    ReadingStarts(left, right);
    while l > 0 || r > 0
      invariant l <= |left| && r <= |right|
      invariant FilledTo(left, right, costs, bestMove, |left|)
      invariant Path(left, right, l, r) + Reversed(best) == Edits(left, right)
      decreases l + r
    {
      CellHolds(left, right, costs, bestMove, l, r);
      var move := bestMove[l, r];
      ReadOne(left, right, l, r, best);
      best := best + [move];
      l := l - if move != Add then 1 else 0;
      r := r - if move != Remove then 1 else 0;
    }
    path := Reversed(best);
    ReadingEnds(left, right, path);
  }

  lemma CellHolds<T>(left: seq<T>, right: seq<T>, costs: array2<nat>, bestMove: array2<EditType>, l: nat, r: nat)
    requires IsTable(left, right, costs, bestMove) && l <= |left| && r <= |right|
    requires FilledTo(left, right, costs, bestMove, |left|)
    ensures bestMove.Length0 > l && bestMove.Length1 > r && bestMove[l, r] == Move(left, right, l, r)
  {
  }

  lemma ReadingStarts<T>(left: seq<T>, right: seq<T>)
    ensures Path(left, right, |left|, |right|) + Reversed<EditType>([]) == Edits(left, right)
  {
  }

  /** One step of reading the table back moves an edit from the path to the script collected in reverse. */
  lemma ReadOne<T>(left: seq<T>, right: seq<T>, l: nat, r: nat, best: seq<EditType>)
    requires l <= |left| && r <= |right| && l + r > 0
    ensures var m := Move(left, right, l, r);
            var i, j := l - (if m != Add then 1 else 0), r - (if m != Remove then 1 else 0);
            i >= 0 && j >= 0 && Path(left, right, i, j) + Reversed(best + [m]) == Path(left, right, l, r) + Reversed(best)
  {
    hide *;
    PathStep(left, right, l, r);
    ReversedSnoc(best, Move(left, right, l, r));
    Associate(Path(left, right, l, r)[..|Path(left, right, l, r)| - 1], [Move(left, right, l, r)], Reversed(best));
  }

  lemma PathStep<T>(left: seq<T>, right: seq<T>, l: nat, r: nat)
    requires l <= |left| && r <= |right| && l + r > 0
    ensures var m := Move(left, right, l, r);
            var i, j := l - (if m != Add then 1 else 0), r - (if m != Remove then 1 else 0);
            && i >= 0 && j >= 0 && Path(left, right, l, r) == Path(left, right, i, j) + [m]
            && Path(left, right, l, r)[..|Path(left, right, l, r)| - 1] == Path(left, right, i, j)
  {
    CostStep(left, right, l, r);
    hide Move, Cost;
  }

  /** What the script read back to the origin is worth. */
  lemma ReadingEnds<T>(left: seq<T>, right: seq<T>, path: seq<EditType>)
    requires Path(left, right, 0, 0) + path == Edits(left, right)
    ensures path == Edits(left, right) && IsScript(path, left, right)
    ensures Optimum(left, right, |left|, |right|) <= Weight(path)
    ensures Weight(path) <= INDEL * Distance(|left|, |right|) + REPLACE * Min(|left|, |right|)
    ensures OptimalEverywhere(left, right) ==> IsLeastWeight(Weight(path), left, right, |left|, |right|)
    ensures IsLeastWeight(Weight(path), left, right, |left|, |right|) <==> Clean(left, right, |left|, |right|)
    ensures (forall k | 0 <= k < |path| :: path[k] == Match) <==> left == right
  {
    assert Path(left, right, 0, 0) == [] && [] + path == path;
    hide Path, Cost, Optimum, IsScript, Weight, Edits, IsLeastWeight, Clean;
    ResultOptimalIff(left, right, |left|, |right|);
    OptimumIsLeast(left, right, |left|, |right|);
    EditsAreAScript(left, right);
    OptimumBelowCost(left, right, |left|, |right|);
    AllMatchIffEqual(left, right);
  }

  // ---------------------------------------------------------------- strings by way of interned ids

  /** Deduplicating table from lines to ids: equal lines get equal ids, different lines different ones. */
  class InternalStrings {
    var ids: map<string, nat>

    ghost predicate Valid()
      reads this
    {
      && (forall s | s in ids :: ids[s] < |ids|)
      && (forall s, t | s in ids && t in ids && ids[s] == ids[t] :: s == t)
    }

    constructor ()
      ensures Valid() && ids == map[]
    {
      ids := map[];
    }

    method GetId(str: string) returns (id: nat)
      requires Valid()
      modifies this
      ensures Valid()
      ensures str in ids && id == ids[str]
      ensures forall s | s in old(ids) :: s in ids && ids[s] == old(ids)[s]
      ensures ids.Keys == old(ids).Keys + {str}
    {
      if str in ids {
        return ids[str];
      }
      id := |ids|;
      ids := ids[str := id];
    }
  }

  /** Which elements are equal to which is the same on both sides. */
  ghost predicate SamePattern<S, T>(left: seq<S>, right: seq<S>, left': seq<T>, right': seq<T>) {
    && |left| == |left'| && |right| == |right'|
    && forall a, b | 0 <= a < |left| && 0 <= b < |right| :: left[a] == right[b] <==> left'[a] == right'[b]
  }

  lemma PatternAt<S, T>(left: seq<S>, right: seq<S>, left': seq<T>, right': seq<T>, a: nat, b: nat)
    requires SamePattern(left, right, left', right')
    ensures |left| == |left'| && |right| == |right'|
    ensures a < |left| && b < |right| ==> (left[a] == right[b] <==> left'[a] == right'[b])
  {
  }

  lemma {:induction false} SamePatternSameEdits<S, T>(left: seq<S>, right: seq<S>, left': seq<T>, right': seq<T>, i: nat, j: nat)
    requires SamePattern(left, right, left', right') && i <= |left| && j <= |right|
    ensures i <= |left'| && j <= |right'|
    ensures Cost(left, right, i, j) == Cost(left', right', i, j)
    ensures Move(left, right, i, j) == Move(left', right', i, j)
    decreases i + j
  {
    hide SamePattern, Chosen, Choice;
    PatternAt(left, right, left', right', if i > 0 then i - 1 else 0, if j > 0 then j - 1 else 0);
    if i > 0 && j > 0 {
      SamePatternSameEdits(left, right, left', right', i - 1, j - 1);
      SamePatternSameEdits(left, right, left', right', i, j - 1);
      SamePatternSameEdits(left, right, left', right', i - 1, j);
    }
  }

  lemma {:induction false} SamePatternSamePath<S, T>(left: seq<S>, right: seq<S>, left': seq<T>, right': seq<T>, i: nat, j: nat)
    requires SamePattern(left, right, left', right') && i <= |left| && j <= |right|
    ensures i <= |left'| && j <= |right'| && Path(left, right, i, j) == Path(left', right', i, j)
    decreases i + j
  {
    hide SamePattern, Cost, Move;
    SamePatternSameEdits(left, right, left', right', i, j);
    if i + j > 0 {
      CostStep(left, right, i, j);
      var m := Move(left, right, i, j);
      SamePatternSamePath(left, right, left', right', i - LeftStep(m), j - RightStep(m));
    }
  }

  /** The ids of the given lines under a finished table. */
  ghost predicate Interned(lines: seq<string>, ids: seq<nat>, table: map<string, nat>) {
    && |ids| <= |lines|
    && forall k | 0 <= k < |ids| :: lines[k] in table && ids[k] == table[lines[k]]
  }

  method InternAll(lines: seq<string>, table: InternalStrings) returns (ids: seq<nat>)
    requires table.Valid()
    modifies table
    ensures table.Valid()
    ensures |ids| == |lines| && Interned(lines, ids, table.ids)
    ensures forall s | s in old(table.ids) :: s in table.ids && table.ids[s] == old(table.ids)[s]
  {
    ids := [];
    for i := 0 to |lines|
      invariant table.Valid()
      invariant |ids| == i && Interned(lines, ids, table.ids)
      invariant forall s | s in old(table.ids) :: s in table.ids && table.ids[s] == old(table.ids)[s]
    {
      var id := table.GetId(lines[i]);
      ids := ids + [id];
    }
  }

  /** The overload on lines of text returns the script of the lines themselves: interning loses nothing. */
  method CalculateOptimalEditsOfLines(left: seq<string>, right: seq<string>) returns (path: seq<EditType>)
    ensures path == Edits(left, right)
    ensures IsScript(path, left, right)
  {
    var table := new InternalStrings();
    var leftIds := InternAll(left, table);
    var rightIds := InternAll(right, table);
    path := CalculateOptimalEdits(leftIds, rightIds);
    SamePatternSamePath(left, right, leftIds, rightIds, |left|, |right|);
    EditsAreAScript(left, right);
  }
}
