/**
 The second pass over an edit script: it prints the script as hunks with context.  A hunk is kept structured here: the two
 start lines, the three counters behind its header, and its tagged lines.
 */
module UnifiedDiff {
  import opened Sequences
  import opened EditDistance

  datatype Line = Line(tag: char, text: string)

  datatype Range = Omitted | Range(start: nat, length: nat)

  /** The header omits the side a hunk does not change. */
  datatype HunkText = HunkText(leftStart: nat, rightStart: nat, leftRange: Range, rightRange: Range, lines: seq<Line>)

  // ---------------------------------------------------------------- what tagged lines mean

  /** The lines of the left text that a hunk body shows. */
  function Lefts(lines: seq<Line>): seq<string> {
    if lines == [] then []
    else Lefts(lines[..|lines| - 1]) + if lines[|lines| - 1].tag in {' ', '-'} then [lines[|lines| - 1].text] else []
  }

  /** The lines of the right text that a hunk body shows. */
  function Rights(lines: seq<Line>): seq<string> {
    if lines == [] then []
    else Rights(lines[..|lines| - 1]) + if lines[|lines| - 1].tag in {' ', '+'} then [lines[|lines| - 1].text] else []
  }

  function Count(lines: seq<Line>, tag: char): nat {
    if lines == [] then 0 else Count(lines[..|lines| - 1], tag) + if lines[|lines| - 1].tag == tag then 1 else 0
  }

  /** Within a run of changes every removal comes before every addition. */
  ghost predicate RemovesFirst(lines: seq<Line>) {
    forall k | 0 <= k < |lines| - 1 :: lines[k].tag == '+' ==> lines[k + 1].tag != '-'
  }

  lemma {:induction false} SidesOfConcat(a: seq<Line>, b: seq<Line>)
    ensures Lefts(a + b) == Lefts(a) + Lefts(b)
    ensures Rights(a + b) == Rights(a) + Rights(b)
    ensures forall tag :: Count(a + b, tag) == Count(a, tag) + Count(b, tag)
  {
    hide Lefts, Rights, Count;
    if b == [] {
      assert a + b == a;
      NoSides();
    } else {
      var b', x := b[..|b| - 1], b[|b| - 1];
      SidesOfConcat(a, b');
      SidesOfSnoc(a + b', x);
      SidesOfSnoc(b', x);
      assert a + b == (a + b') + [x] && b == b' + [x];
      Associate(Lefts(a), Lefts(b'), if x.tag in {' ', '-'} then [x.text] else []);
      Associate(Rights(a), Rights(b'), if x.tag in {' ', '+'} then [x.text] else []);
    }
  }

  lemma SidesOfSnoc(a: seq<Line>, x: Line)
    ensures Lefts(a + [x]) == Lefts(a) + if x.tag in {' ', '-'} then [x.text] else []
    ensures Rights(a + [x]) == Rights(a) + if x.tag in {' ', '+'} then [x.text] else []
    ensures forall tag :: Count(a + [x], tag) == Count(a, tag) + if x.tag == tag then 1 else 0
  {
    assert (a + [x])[..|a|] == a;
  }

  /** Every line carries one of the three tags. */
  ghost predicate Tagged(lines: seq<Line>) {
    forall k | 0 <= k < |lines| :: lines[k].tag in {' ', '-', '+'}
  }

  lemma {:induction false} SideLengths(lines: seq<Line>)
    ensures |Lefts(lines)| == Count(lines, ' ') + Count(lines, '-')
    ensures |Rights(lines)| == Count(lines, ' ') + Count(lines, '+')
  {
    if lines != [] { SideLengths(lines[..|lines| - 1]); }
  }

  lemma {:induction false} OneTagSides(lines: seq<Line>, tag: char)
    requires forall k | 0 <= k < |lines| :: lines[k].tag == tag
    ensures tag == '+' ==> Lefts(lines) == []
    ensures tag == '-' ==> Rights(lines) == []
  {
    if lines != [] { OneTagSides(lines[..|lines| - 1], tag); }
  }

  /** Slipping a removal in front of additions changes neither side's order. */
  lemma SidesOfEarlyRemoval(a: seq<Line>, adds: seq<Line>, x: Line)
    requires x.tag == '-' && forall k | 0 <= k < |adds| :: adds[k].tag == '+'
    ensures Lefts((a + [x]) + adds) == Lefts(a + adds) + [x.text]
    ensures Rights((a + [x]) + adds) == Rights(a + adds)
    ensures forall tag :: Count((a + [x]) + adds, tag) == Count(a + adds, tag) + if x.tag == tag then 1 else 0
  {
    hide Lefts, Rights, Count;
    SidesOfSnoc(a, x);
    SidesOfConcat(a + [x], adds);
    SidesOfConcat(a, adds);
    OneTagSides(adds, '+');
  }

  // ---------------------------------------------------------------- the hunk under construction

  class Hunk {
    const leftStart: nat
    const rightStart: nat
    var adds: nat
    var removes: nat
    var common: nat
    var hunk: seq<Line>
    var hunkAdds: seq<Line>
    var hunkRemoves: seq<Line>

    ghost function Body(): seq<Line>
      reads this
    {
      hunk + hunkRemoves + hunkAdds
    }

    ghost predicate Valid()
      reads this
    {
      && (forall k | 0 <= k < |hunkAdds| :: hunkAdds[k].tag == '+')
      && (forall k | 0 <= k < |hunkRemoves| :: hunkRemoves[k].tag == '-')
      && (hunk != [] ==> hunk[|hunk| - 1].tag == ' ')
      && Tagged(hunk) && RemovesFirst(hunk)
      && adds == Count(Body(), '+') && removes == Count(Body(), '-') && common == Count(Body(), ' ')
    }

    constructor (left: nat, right: nat)
      ensures Valid() && Body() == [] && leftStart == left && rightStart == right
    {
      leftStart, rightStart := left, right;
      adds, removes, common := 0, 0, 0;
      hunk, hunkAdds, hunkRemoves := [], [], [];
    }

    method FlushEdits()
      modifies `hunk, `hunkAdds, `hunkRemoves
      ensures hunk == old(Body()) && hunkRemoves == [] && hunkAdds == []
    {
      hunk := hunk + hunkRemoves;
      hunkRemoves := [];
      hunk := hunk + hunkAdds;
      hunkAdds := [];
    }

    /** A removal is moved ahead of pending additions; each side of the body still only grows at its end. */
    method PushLine(edit: char, line: string)
      requires Valid() && edit in {' ', '-', '+'}
      modifies this
      ensures Valid()
      ensures Lefts(Body()) == old(Lefts(Body())) + if edit == '+' then [] else [line]
      ensures Rights(Body()) == old(Rights(Body())) + if edit == '-' then [] else [line]
      ensures common == old(common) + if edit == ' ' then 1 else 0
      ensures removes == old(removes) + if edit == '-' then 1 else 0
      ensures adds == old(adds) + if edit == '+' then 1 else 0
    {
      hide Lefts, Rights, Count;
      ghost var before := Body();
      BodyOrdered();
      SidesOfSnoc(before, Line(edit, line));
      if edit == ' ' {
        common := common + 1;
        FlushEdits();
        hunk := hunk + [Line(' ', line)];
        assert Body() == before + [Line(' ', line)];
      } else if edit == '-' {
        removes := removes + 1;
        SidesOfEarlyRemoval(hunk + hunkRemoves, hunkAdds, Line('-', line));
        hunkRemoves := hunkRemoves + [Line('-', line)];
        assert Body() == (hunk + old(hunkRemoves) + [Line('-', line)]) + hunkAdds;
      } else {
        adds := adds + 1;
        hunkAdds := hunkAdds + [Line('+', line)];
        assert Body() == before + [Line('+', line)];
      }
    }

    lemma BodyOrdered()
      requires Valid()
      ensures Tagged(Body()) && RemovesFirst(Body())
    {
      var b := Body();
      forall k | 0 <= k < |b| - 1 ensures b[k].tag == '+' ==> b[k + 1].tag != '-' {
        if k + 1 < |hunk| {
          assert b[k] == hunk[k] && b[k + 1] == hunk[k + 1];
        }
      }
    }

    method HasEdits() returns (b: bool)
      ensures b <==> adds > 0 || removes > 0
    {
      b := adds != 0 || removes != 0;
    }

    /** Header counts are read off the counters before the pending edits are flushed into the body. */
    method Print() returns (text: HunkText)
      requires Valid()
      modifies `hunk, `hunkAdds, `hunkRemoves
      ensures text.leftStart == leftStart && text.rightStart == rightStart
      ensures text.lines == old(Body())
      ensures WellFormed(text)
    {
      var l := if removes != 0 then Range(leftStart, removes + common) else Omitted;
      var r := if adds != 0 then Range(rightStart, adds + common) else Omitted;
      SideLengths(Body());
      BodyOrdered();
      FlushEdits();
      text := HunkText(leftStart, rightStart, l, r, hunk);
    }
  }

  /** The header describes the body: a side is shown exactly when it changes, with its start and its number of lines. */
  ghost predicate WellFormed(h: HunkText) {
    && Tagged(h.lines) && RemovesFirst(h.lines)
    && h.leftRange == (if Count(h.lines, '-') == 0 then Omitted else Range(h.leftStart, |Lefts(h.lines)|))
    && h.rightRange == (if Count(h.lines, '+') == 0 then Omitted else Range(h.rightStart, |Rights(h.lines)|))
  }

  // ---------------------------------------------------------------- positions in a script

  /** Lines of left, lines of right, and matches among the first k edits. */
  function L(edits: seq<EditType>, k: nat): nat requires k <= |edits| { LeftUsed(edits[..k]) }
  function R(edits: seq<EditType>, k: nat): nat requires k <= |edits| { RightUsed(edits[..k]) }
  function M(edits: seq<EditType>, k: nat): nat
    requires k <= |edits|
  {
    if k == 0 then 0 else M(edits, k - 1) + if edits[k - 1] == Match then 1 else 0
  }

  /** The least position from k on that is not a match, or the length. */
  function NextEdit(edits: seq<EditType>, k: nat): (n: nat)
    requires k <= |edits|
    ensures k <= n <= |edits|
    ensures forall p | k <= p < n :: edits[p] == Match
    ensures n < |edits| ==> edits[n] != Match
    decreases |edits| - k
  {
    if k == |edits| || edits[k] != Match then k else NextEdit(edits, k + 1)
  }

  lemma Step(edits: seq<EditType>, k: nat)
    requires k < |edits|
    ensures L(edits, k + 1) == L(edits, k) + LeftStep(edits[k])
    ensures R(edits, k + 1) == R(edits, k) + RightStep(edits[k])
    ensures M(edits, k + 1) == M(edits, k) + if edits[k] == Match then 1 else 0
  {
    assert edits[..k + 1][..k] == edits[..k];
  }

  /** Along matches both sides advance together. */
  lemma {:induction false} StepMatches(edits: seq<EditType>, a: nat, b: nat)
    requires a <= b <= |edits|
    requires forall p | a <= p < b :: edits[p] == Match
    ensures L(edits, b) == L(edits, a) + (b - a) && R(edits, b) == R(edits, a) + (b - a) && M(edits, b) == M(edits, a) + (b - a)
    decreases b - a
  {
    if a < b {
      StepMatches(edits, a, b - 1);
      Step(edits, b - 1);
    }
  }

  lemma {:induction false} Monotone(edits: seq<EditType>, a: nat, b: nat)
    requires a <= b <= |edits|
    ensures L(edits, a) <= L(edits, b) && R(edits, a) <= R(edits, b)
    decreases b - a
  {
    if a < b {
      Monotone(edits, a, b - 1);
      Step(edits, b - 1);
    }
  }

  lemma Ends(edits: seq<EditType>)
    ensures L(edits, |edits|) == LeftUsed(edits) && R(edits, |edits|) == RightUsed(edits)
    ensures L(edits, 0) == 0 && R(edits, 0) == 0
  {
    assert edits[..|edits|] == edits;
  }

  /** A run of matches shows the same lines on both sides. */
  lemma ScriptUsesAll(left: seq<string>, right: seq<string>, edits: seq<EditType>)
    requires IsScript(edits, left, right)
    ensures L(edits, |edits|) == |left| && R(edits, |edits|) == |right|
  {
    Ends(edits);
  }

  lemma MatchedSlices(left: seq<string>, right: seq<string>, edits: seq<EditType>, a: nat, b: nat)
    requires IsScript(edits, left, right) && a <= b <= |edits|
    requires forall p | a <= p < b :: edits[p] == Match
    ensures L(edits, a) <= L(edits, b) <= |left| && R(edits, a) <= R(edits, b) <= |right|
    ensures left[L(edits, a)..L(edits, b)] == right[R(edits, a)..R(edits, b)]
  {
    hide L, R, LeftUsed, RightUsed, IsScript;
    Ends(edits);
    ScriptUsesAll(left, right, edits);
    Monotone(edits, b, |edits|);
    StepMatches(edits, a, b);
    var x, y := left[L(edits, a)..L(edits, b)], right[R(edits, a)..R(edits, b)];
    forall k | 0 <= k < |x| ensures x[k] == y[k] {
      StepMatches(edits, a, a + k);
      MatchStandsOnEqualLines(left, right, edits, a + k);
    }
  }

  // ---------------------------------------------------------------- which edits a hunk covers

  /** The edits from..to - 1 of a script. */
  datatype Span = Span(from: nat, to: nat)

  /** A hunk opens min(context, available) matches before its first edit. */
  ghost predicate OpensWithContext(edits: seq<EditType>, context: nat, s: Span)
    requires s.from <= |edits|
  {
    var first := NextEdit(edits, s.from);
    first < s.to && first - s.from == Min(context, first)
  }

  /** Position last holds an edit and everything after it before position to is a match. */
  ghost predicate IsLastEdit(edits: seq<EditType>, last: nat, to: nat) {
    last < to <= |edits| && edits[last] != Match && NextEdit(edits, last + 1) >= to
  }

  /** ... and closes min(context, available) matches after its last edit. */
  ghost predicate ClosesWithContext(edits: seq<EditType>, context: nat, s: Span)
    requires s.to <= |edits|
  {
    exists last | s.from <= last :: IsLastEdit(edits, last, s.to) && s.to - 1 - last == Min(context, |edits| - 1 - last)
  }

  /** Edits share a hunk only while their contexts overlap: fewer than 2 * context matches in between. */
  ghost predicate CloseTogether(edits: seq<EditType>, context: nat, s: Span)
    requires s.to <= |edits|
  {
    forall p | s.from <= p < s.to && edits[p] != Match && NextEdit(edits, p + 1) < s.to ::
      NextEdit(edits, p + 1) - p - 1 < 2 * context
  }

  ghost predicate IsSpan(edits: seq<EditType>, context: nat, s: Span) {
    && s.from < s.to <= |edits|
    && OpensWithContext(edits, context, s)
    && ClosesWithContext(edits, context, s)
    && CloseTogether(edits, context, s)
  }

  /** Where the k-th hunk's predecessor ends. */
  function Before(spans: seq<Span>, k: nat): nat
    requires k <= |spans|
  {
    if k == 0 then 0 else spans[k - 1].to
  }

  /** The k-th span starts at or after the end of its predecessor, with nothing but matches in between. */
  ghost predicate FollowsOn(edits: seq<EditType>, spans: seq<Span>, k: nat)
    requires k < |spans|
  {
    Before(spans, k) <= spans[k].from <= |edits| && spans[k].from <= NextEdit(edits, Before(spans, k))
  }

  /** Ascending disjoint spans with nothing but matches in front of each. */
  ghost predicate AreSpans(edits: seq<EditType>, context: nat, spans: seq<Span>) {
    && (forall k | 0 <= k < |spans| :: IsSpan(edits, context, spans[k]))
    && (forall k | 0 <= k < |spans| :: FollowsOn(edits, spans, k))
  }

  /** The hunk is the printed form of its span: its two sides are the slices of the two texts at its start lines. */
  ghost predicate Shows(left: seq<string>, right: seq<string>, edits: seq<EditType>, s: Span, h: HunkText) {
    && s.from <= s.to <= |edits|
    && L(edits, s.from) <= L(edits, s.to) <= |left|
    && R(edits, s.from) <= R(edits, s.to) <= |right|
    && h.leftStart == L(edits, s.from) + 1
    && h.rightStart == R(edits, s.from) + 1
    && Lefts(h.lines) == left[L(edits, s.from)..L(edits, s.to)]
    && Rights(h.lines) == right[R(edits, s.from)..R(edits, s.to)]
    && Count(h.lines, ' ') == M(edits, s.to) - M(edits, s.from)
    && WellFormed(h)
  }

  /** out is the unified diff of the script, hunk for hunk, and nothing but matches follow the last hunk. */
  ghost predicate IsDiff(left: seq<string>, right: seq<string>, edits: seq<EditType>, context: nat, spans: seq<Span>, out: seq<HunkText>) {
    && IsDiffUpTo(left, right, edits, context, spans, out)
    && Before(spans, |spans|) <= |edits|
    && NextEdit(edits, Before(spans, |spans|)) == |edits|
  }

  ghost predicate IsDiffUpTo(left: seq<string>, right: seq<string>, edits: seq<EditType>, context: nat, spans: seq<Span>, out: seq<HunkText>) {
    && IsScript(edits, left, right)
    && AreSpans(edits, context, spans)
    && |out| == |spans|
    && (forall k | 0 <= k < |out| :: Shows(left, right, edits, spans[k], out[k]))
  }

  // ---------------------------------------------------------------- the code

  method FindNextEdit(edits: seq<EditType>, from: nat) returns (it: nat)
    requires from <= |edits|
    ensures it == NextEdit(edits, from)
  {
    it := from;
    while it != |edits| && edits[it] == Match
      invariant it <= |edits| && NextEdit(edits, it) == NextEdit(edits, from)
      decreases |edits| - it
    {
      it := it + 1;
    }
  }

  /** The hunk in progress shows exactly the edits a..e - 1. */
  ghost predicate Shown(hunk: Hunk, left: seq<string>, right: seq<string>, edits: seq<EditType>, a: nat, e: nat)
    reads hunk
  {
    hunk.Valid() && Covers(left, right, edits, a, e, hunk.Body(), hunk.common)
  }

  ghost predicate Covers(left: seq<string>, right: seq<string>, edits: seq<EditType>, a: nat, e: nat, lines: seq<Line>, common: nat) {
    && a <= e <= |edits|
    && L(edits, a) <= L(edits, e) <= |left|
    && R(edits, a) <= R(edits, e) <= |right|
    && Lefts(lines) == left[L(edits, a)..L(edits, e)]
    && Rights(lines) == right[R(edits, a)..R(edits, e)]
    && common == M(edits, e) - M(edits, a)
  }

  method PushPrefix(hunk: Hunk, left: seq<string>, l: nat, prefix: nat)
    requires hunk.Valid() && hunk.Body() == [] && prefix <= l <= |left|
    modifies hunk
    ensures hunk.Valid() && hunk.adds == hunk.removes == 0 && hunk.common == prefix
    ensures Lefts(hunk.Body()) == left[l - prefix..l] && Rights(hunk.Body()) == left[l - prefix..l]
  {
    hide Lefts, Rights, Count;
    NoSides();
    var i := prefix;
    while i > 0
      invariant 0 <= i <= prefix
      invariant hunk.Valid() && hunk.adds == hunk.removes == 0 && hunk.common == prefix - i
      invariant Lefts(hunk.Body()) == left[l - prefix..l - i] && Rights(hunk.Body()) == left[l - prefix..l - i]
    {
      hunk.PushLine(' ', left[l - i]);
      i := i - 1;
      assert left[l - prefix..l - i] == left[l - prefix..l - i - 1] + [left[l - i - 1]];
    }
  }

  lemma NoSides()
    ensures Lefts([]) == [] && Rights([]) == [] && forall tag :: Count([], tag) == 0
  {
  }

  lemma MatchStandsOnEqualLines(left: seq<string>, right: seq<string>, edits: seq<EditType>, e: nat)
    requires IsScript(edits, left, right) && e < |edits| && edits[e] == Match
    ensures L(edits, e) < |left| && R(edits, e) < |right| && left[L(edits, e)] == right[R(edits, e)]
  {
    assert MatchesEqual(edits, left, right, e);
  }

  /** Pushes the lines of edit e, which stands at line l of left and line r of right. */
  method PushEdit(hunk: Hunk, left: seq<string>, right: seq<string>, edits: seq<EditType>, e: nat, l: nat, r: nat, ghost a: nat)
    requires IsScript(edits, left, right)
    requires e < |edits| && l == L(edits, e) && r == R(edits, e)
    requires Shown(hunk, left, right, edits, a, e)
    modifies hunk
    ensures Shown(hunk, left, right, edits, a, e + 1)
    ensures hunk.adds + hunk.removes == 0 <==> edits[e] == Match && old(hunk.adds + hunk.removes) == 0
  {
    hide Lefts, Rights, Count, L, R, M;
    Step(edits, e);
    Ends(edits);
    Monotone(edits, e + 1, |edits|);
    if edits[e] == Match { MatchStandsOnEqualLines(left, right, edits, e); }
    var edit := edits[e];
    if edit == Match || edit == Remove || edit == Replace {
      hunk.PushLine(if edit == Match then ' ' else '-', left[l]);
    }
    if edit == Add || edit == Replace {
      hunk.PushLine('+', right[r]);
    }
  }

  /** What the inner loop knows about the edits before position e of the hunk whose first edit is first. */
  ghost predicate Scanned(edits: seq<EditType>, context: nat, first: nat, e: nat, suffix: nat, last: nat) {
    && first <= last < e <= |edits|
    && IsLastEdit(edits, last, e)
    && suffix == e - 1 - last
    && (suffix > context ==> NextEdit(edits, e) < |edits| && NextEdit(edits, e) - e < context
                             && NextEdit(edits, e) - 1 - last < 2 * context)
    && CloseTogether(edits, context, Span(first, e))
  }

  lemma ScanOne(edits: seq<EditType>, context: nat, first: nat, e: nat, suffix: nat, last: nat)
    requires Scanned(edits, context, first, e, suffix, last) && e < |edits| && context > 0
    requires suffix >= context ==> NextEdit(edits, e) < |edits| && NextEdit(edits, e) - e < context
    ensures if edits[e] == Match then Scanned(edits, context, first, e + 1, suffix + 1, last)
            else Scanned(edits, context, first, e + 1, 0, e)
  {
    if edits[e] == Match {
      NextEditUnique(edits, last + 1, e);
      NextEditUnique(edits, last + 1, e + 1);
    }
    forall p | first <= p < e + 1 && edits[p] != Match && NextEdit(edits, p + 1) < e + 1
      ensures NextEdit(edits, p + 1) - p - 1 < 2 * context
    {
      NextEditBefore(edits, p, last);
    }
  }

  lemma NextEditBefore(edits: seq<EditType>, p: nat, last: nat)
    requires p < |edits|
    ensures p < last < |edits| && edits[last] != Match ==> NextEdit(edits, p + 1) <= last
  {
  }

  /** A hunk that ends at e < |edits| leaves context matches behind it and at least context matches, or only matches, ahead. */
  ghost predicate FarFromNext(edits: seq<EditType>, context: nat, e: nat)
    requires e <= |edits|
  {
    e < |edits| ==>
      && e >= context
      && NextEdit(edits, e - context) == NextEdit(edits, e)
      && (NextEdit(edits, e) == |edits| || NextEdit(edits, e) - e >= context)
  }

  lemma ScanStart(edits: seq<EditType>, context: nat, first: nat)
    requires first < |edits| && edits[first] != Match
    ensures Scanned(edits, context, first, first + 1, 0, first)
  {
  }

  lemma ScanDone(edits: seq<EditType>, context: nat, first: nat, e: nat, suffix: nat, last: nat)
    requires Scanned(edits, context, first, e, suffix, last) && context > 0
    requires e < |edits| ==> suffix >= context && (NextEdit(edits, e) == |edits| || NextEdit(edits, e) - e >= context)
    ensures CloseTogether(edits, context, Span(first, e))
    ensures ClosesWithContext(edits, context, Span(first, e))
    ensures FarFromNext(edits, context, e)
  {
    assert suffix <= context;
    assert IsLastEdit(edits, last, e);
    if e < |edits| { NextEditUnique(edits, last + 1, e); NextEditUnique(edits, e - context, e); }
  }

  /** The next edit is the same seen from any match before it. */
  lemma {:induction false} NextEditUnique(edits: seq<EditType>, k: nat, k': nat)
    requires k <= k' <= |edits| && k' <= NextEdit(edits, k)
    ensures NextEdit(edits, k) == NextEdit(edits, k')
    decreases k' - k
  {
    if k < k' { NextEditUnique(edits, k + 1, k'); }
  }

  /** The inner loop: pushes edits until enough suffix is found or the script is over. */
  method FillHunk(hunk: Hunk, left: seq<string>, right: seq<string>, edits: seq<EditType>, context: nat,
                  first: nat, l0: nat, r0: nat, ghost a: nat)
    returns (e: nat, l: nat, r: nat)
    requires IsScript(edits, left, right)
    requires first <= |edits| && l0 == L(edits, first) && r0 == R(edits, first)
    requires first < |edits| ==> edits[first] != Match
    requires Shown(hunk, left, right, edits, a, first) && hunk.adds == hunk.removes == 0
    modifies hunk
    ensures first <= e <= |edits| && l == L(edits, e) && r == R(edits, e)
    ensures Shown(hunk, left, right, edits, a, e)
    ensures hunk.adds + hunk.removes > 0 <==> first < |edits| && context > 0
    ensures first < |edits| && context > 0 ==>
              && first < e
              && CloseTogether(edits, context, Span(first, e))
              && ClosesWithContext(edits, context, Span(first, e))
              && FarFromNext(edits, context, e)
  {
    hide L, R, M, Lefts, Rights, Count, Scanned, CloseTogether, ClosesWithContext, FarFromNext;
    e, l, r := first, l0, r0;
    var suffix := 0;
    ghost var last := first;
    while e < |edits|
      invariant first <= e <= |edits| && l == L(edits, e) && r == R(edits, e)
      invariant Shown(hunk, left, right, edits, a, e)
      invariant hunk.adds + hunk.removes > 0 <==> first < e
      invariant first < e ==> first < |edits| && context > 0 && Scanned(edits, context, first, e, suffix, last)
      invariant first == e ==> suffix == 0
      decreases |edits| - e
    {
      if suffix >= context {
        var it := FindNextEdit(edits, e);
        if it == |edits| || it - e >= context {
          break;
        }
      }
      if first < e { ScanOne(edits, context, first, e, suffix, last); } else { ScanStart(edits, context, first); }
      var edit := edits[e];
      suffix := if edit == Match then suffix + 1 else 0;
      if edit != Match { last := e; }
      PushEdit(hunk, left, right, edits, e, l, r, a);
      Step(edits, e);
      l := l + if edit != Add then 1 else 0;
      r := r + if edit != Remove then 1 else 0;
      e := e + 1;
    }
    if first < e { ScanDone(edits, context, first, e, suffix, last); }
  }

  /** The matches in front of the next edit reach back as far as the prefix does. */
  lemma PrefixIsMatched(left: seq<string>, right: seq<string>, edits: seq<EditType>, context: nat, e0: nat, e: nat)
    requires e0 < |edits| && e == NextEdit(edits, e0)
    requires e0 > 0 ==> FarFromNext(edits, context, e0)
    ensures var prefix := Min(L(edits, e), context);
            && prefix <= e
            && (forall p | e - prefix <= p < e :: edits[p] == Match)
            && (e < |edits| ==> e0 <= e - prefix && prefix == Min(context, e))
  {
    hide L, R, M;
    Ends(edits);
    if e0 == 0 {
      StepMatches(edits, 0, e);
    } else {
      StepMatches(edits, e0 - context, e);
    }
  }

  /** The prefix lines are common to both texts, reach back no further than the last hunk, and are as many as asked for. */
  lemma PrefixIsCommon(left: seq<string>, right: seq<string>, edits: seq<EditType>, context: nat, e0: nat, e: nat)
    requires IsScript(edits, left, right)
    requires e0 < |edits| && e == NextEdit(edits, e0)
    requires e0 > 0 ==> FarFromNext(edits, context, e0)
    ensures var prefix := Min(L(edits, e), context);
            && prefix <= e && (e < |edits| ==> e0 <= e - prefix && prefix == Min(context, e) && NextEdit(edits, e - prefix) == e)
            && L(edits, e - prefix) == L(edits, e) - prefix
            && R(edits, e - prefix) == R(edits, e) - prefix
            && M(edits, e - prefix) == M(edits, e) - prefix
            && L(edits, e) <= |left| && R(edits, e) <= |right|
            && left[L(edits, e) - prefix..L(edits, e)] == right[R(edits, e) - prefix..R(edits, e)]
  {
    hide L, R, M, IsScript, FarFromNext;
    var prefix := Min(L(edits, e), context);
    PrefixIsMatched(left, right, edits, context, e0, e);
    StepMatches(edits, e - prefix, e);
    MatchedSlices(left, right, edits, e - prefix, e);
  }

  method SkipMatches(edits: seq<EditType>, e0: nat, l0: nat, r0: nat) returns (e: nat, l: nat, r: nat)
    requires e0 <= |edits| && l0 == L(edits, e0) && r0 == R(edits, e0)
    ensures e == NextEdit(edits, e0) && l == L(edits, e) && r == R(edits, e)
  {
    e, l, r := e0, l0, r0;
    while e < |edits| && edits[e] == Match
      invariant e0 <= e <= |edits| && NextEdit(edits, e0) == NextEdit(edits, e)
      invariant l == L(edits, e) && r == R(edits, e)
      decreases |edits| - e
    {
      Step(edits, e);
      l, r, e := l + 1, r + 1, e + 1;
    }
  }

  /** One turn of the outer loop: skip the matches from e0 on, open a hunk with its prefix, fill it, print it if it has edits. */
  method NextHunk(left: seq<string>, right: seq<string>, edits: seq<EditType>, context: nat, e0: nat, l0: nat, r0: nat)
    returns (edited: bool, text: HunkText, e: nat, l: nat, r: nat, ghost span: Span)
    requires IsScript(edits, left, right)
    requires e0 < |edits| && l0 == L(edits, e0) && r0 == R(edits, e0)
    requires e0 > 0 ==> FarFromNext(edits, context, e0)
    ensures e0 <= e <= |edits| && l == L(edits, e) && r == R(edits, e)
    ensures edited <==> NextEdit(edits, e0) < |edits| && context > 0
    ensures edited ==>
              && e0 < e == span.to
              && e0 <= span.from <= NextEdit(edits, e0)
              && IsSpan(edits, context, span)
              && Shows(left, right, edits, span, text)
              && FarFromNext(edits, context, e)
  {
    hide *;
    e, l, r := SkipMatches(edits, e0, l0, r0);
    ghost var first := e;
    var prefix := Min(l, context);
    ghost var from := PrefixStart(left, right, edits, context, e0, e, prefix);
    var hunk := new Hunk(l - prefix + 1, r - prefix + 1);
    PushPrefix(hunk, left, l, prefix);
    PrefixCovers(left, right, edits, from, e, hunk.Body(), prefix);
    ShownIs(hunk, left, right, edits, from, e);
    e, l, r := FillHunk(hunk, left, right, edits, context, e, l, r, from);
    span := Span(from, e);
    edited := hunk.HasEdits();
    ghost var common := hunk.common;
    ShownIs(hunk, left, right, edits, from, e);
    CommonIsCounted(hunk);
    text := hunk.Print();
    if edited {
      SpanFromParts(edits, context, from, first, e);
      ShowsFromParts(left, right, edits, span, text, common);
    }
  }

  /** Where the prefix of the hunk whose first edit is e begins. */
  lemma PrefixStart(left: seq<string>, right: seq<string>, edits: seq<EditType>, context: nat, e0: nat, e: nat, prefix: nat)
    returns (from: nat)
    requires IsScript(edits, left, right)
    requires e0 < |edits| && e == NextEdit(edits, e0) && prefix == Min(L(edits, e), context)
    requires e0 > 0 ==> FarFromNext(edits, context, e0)
    ensures from + prefix == e <= |edits|
    ensures prefix <= L(edits, e) <= |left| && prefix <= R(edits, e) <= |right|
    ensures e < |edits| ==> e0 <= from && prefix == Min(context, e) && NextEdit(edits, from) == e
    ensures L(edits, from) == L(edits, e) - prefix && R(edits, from) == R(edits, e) - prefix
    ensures M(edits, from) == M(edits, e) - prefix
    ensures left[L(edits, e) - prefix..L(edits, e)] == right[R(edits, e) - prefix..R(edits, e)]
  {
    hide L, R, M, IsScript, FarFromNext, NextEdit;
    PrefixIsCommon(left, right, edits, context, e0, e);
    from := e - prefix;
  }

  lemma PrefixCovers(left: seq<string>, right: seq<string>, edits: seq<EditType>, from: nat, e: nat, lines: seq<Line>, prefix: nat)
    requires from + prefix == e <= |edits|
    requires prefix <= L(edits, e) <= |left| && prefix <= R(edits, e) <= |right|
    requires L(edits, from) == L(edits, e) - prefix && R(edits, from) == R(edits, e) - prefix
    requires M(edits, from) == M(edits, e) - prefix
    requires left[L(edits, e) - prefix..L(edits, e)] == right[R(edits, e) - prefix..R(edits, e)]
    requires Lefts(lines) == left[L(edits, e) - prefix..L(edits, e)] && Rights(lines) == Lefts(lines)
    ensures Covers(left, right, edits, from, e, lines, prefix)
  {
    hide L, R, M, Lefts, Rights;
  }

  lemma ShownIs(hunk: Hunk, left: seq<string>, right: seq<string>, edits: seq<EditType>, a: nat, e: nat)
    ensures Shown(hunk, left, right, edits, a, e) <==> hunk.Valid() && Covers(left, right, edits, a, e, hunk.Body(), hunk.common)
  {
  }

  lemma CommonIsCounted(hunk: Hunk)
    requires hunk.Valid()
    ensures hunk.common == Count(hunk.Body(), ' ')
  {
  }

  lemma ShowsFromParts(left: seq<string>, right: seq<string>, edits: seq<EditType>, s: Span, h: HunkText, common: nat)
    requires Covers(left, right, edits, s.from, s.to, h.lines, common)
    requires h.leftStart == L(edits, s.from) + 1 && h.rightStart == R(edits, s.from) + 1
    requires common == Count(h.lines, ' ') && WellFormed(h)
    ensures Shows(left, right, edits, s, h)
  {
    hide L, R, M, Lefts, Rights, Count, WellFormed;
  }

  lemma SpanFromParts(edits: seq<EditType>, context: nat, from: nat, first: nat, to: nat)
    requires from <= first < to <= |edits| && NextEdit(edits, from) == first && first - from == Min(context, first)
    requires CloseTogether(edits, context, Span(first, to)) && ClosesWithContext(edits, context, Span(first, to))
    ensures IsSpan(edits, context, Span(from, to))
  {
    var last :| first <= last && IsLastEdit(edits, last, to) && to - 1 - last == Min(context, |edits| - 1 - last);
    assert from <= last && IsLastEdit(edits, last, to);
  }

  lemma AppendHunk(left: seq<string>, right: seq<string>, edits: seq<EditType>, context: nat,
                   spans: seq<Span>, out: seq<HunkText>, span: Span, text: HunkText)
    requires IsDiffUpTo(left, right, edits, context, spans, out)
    requires IsSpan(edits, context, span) && Shows(left, right, edits, span, text)
    requires Before(spans, |spans|) <= span.from <= NextEdit(edits, Before(spans, |spans|))
    ensures IsDiffUpTo(left, right, edits, context, spans + [span], out + [text])
    ensures Before(spans + [span], |spans| + 1) == span.to
  {
    hide IsSpan, Shows, NextEdit, IsScript;
    var spans', out' := spans + [span], out + [text];
    forall k | 0 <= k < |spans'|
      ensures IsSpan(edits, context, spans'[k]) && Shows(left, right, edits, spans'[k], out'[k])
    {
      if k < |spans| { assert spans'[k] == spans[k] && out'[k] == out[k]; }
    }
    forall k | 0 <= k < |spans'| ensures FollowsOn(edits, spans', k) {
      assert Before(spans', k) == Before(spans, k);
      if k < |spans| { assert FollowsOn(edits, spans, k); }
    }
  }

  lemma EmptyDiff(left: seq<string>, right: seq<string>, context: nat)
    ensures IsDiffUpTo(left, right, Edits(left, right), context, [], [])
  {
    EditsAreAScript(left, right);
  }

  method CreateUnifiedDiff(left: seq<string>, right: seq<string>, context: nat)
    returns (out: seq<HunkText>, ghost spans: seq<Span>)
    ensures context == 0 ==> out == []
    ensures context > 0 ==> IsDiff(left, right, Edits(left, right), context, spans, out)
    ensures context > 0 ==> ApplyPatch(left, out, 0) == Patched(right) && (out == [] <==> left == right)
  {
    hide L, R, FarFromNext, IsSpan, Shows, IsDiffUpTo;
    assert context > 0 ==> IsDiffUpTo(left, right, Edits(left, right), context, [], []) by { EmptyDiff(left, right, context); }
    var edits := CalculateOptimalEditsOfLines(left, right);
    var l: nat, r: nat, e: nat := 0, 0, 0;
    out, spans := [], [];
    Ends(edits);
    while e < |edits|
      invariant e <= |edits| && l == L(edits, e) && r == R(edits, e)
      invariant context == 0 ==> out == []
      invariant context > 0 ==> IsDiffUpTo(left, right, edits, context, spans, out) && Before(spans, |spans|) == e
      invariant e > 0 ==> FarFromNext(edits, context, e)
      decreases |edits| - e
    {
      var edited, text, e', l', r';
      ghost var span;
      edited, text, e', l', r', span := NextHunk(left, right, edits, context, e, l, r);
      if !edited {
        break;
      }
      AppendHunk(left, right, edits, context, spans, out, span, text);
      out, spans := out + [text], spans + [span];
      e, l, r := e', l', r';
    }
    DiffRestores(left, right, context, spans, out);
  }

  lemma DiffRestores(left: seq<string>, right: seq<string>, context: nat, spans: seq<Span>, out: seq<HunkText>)
    ensures IsDiff(left, right, Edits(left, right), context, spans, out) ==>
              ApplyPatch(left, out, 0) == Patched(right) && (out == [] <==> left == right)
  {
    hide IsDiff, ApplyPatch;
    if IsDiff(left, right, Edits(left, right), context, spans, out) {
      PatchRestores(left, right, Edits(left, right), context, spans, out);
      EmptyIffEqual(left, right, context, spans, out);
    }
  }

  // ---------------------------------------------------------------- what a reader of the hunks gets

  datatype Patched = Rejected | Patched(text: seq<string>)

  /** A patch tool at position pos of left: each hunk must show exactly the lines it replaces, in order and without overlap. */
  function ApplyPatch(left: seq<string>, hunks: seq<HunkText>, pos: nat): Patched
    requires pos <= |left|
  {
    if hunks == [] then Patched(left[pos..])
    else
      var h := hunks[0];
      var start := h.leftStart - 1;
      var stop := start + |Lefts(h.lines)|;
      if start < pos || stop > |left| || left[start..stop] != Lefts(h.lines) then Rejected
      else match ApplyPatch(left, hunks[1..], stop)
        case Rejected => Rejected
        case Patched(rest) => Patched(left[pos..start] + Rights(h.lines) + rest)
  }

  lemma {:induction false} PatchFrom(left: seq<string>, right: seq<string>, edits: seq<EditType>, context: nat,
                                     spans: seq<Span>, out: seq<HunkText>, k: nat)
    requires IsDiff(left, right, edits, context, spans, out) && k <= |out|
    ensures Before(spans, k) <= |edits|
    ensures L(edits, Before(spans, k)) <= |left| && R(edits, Before(spans, k)) <= |right|
    ensures ApplyPatch(left, out[k..], L(edits, Before(spans, k))) == Patched(right[R(edits, Before(spans, k))..])
    decreases |out| - k
  {
    hide L, R, M, Lefts, Rights, Count, IsSpan, NextEdit, IsScript;
    if k > 0 { assert IsSpan(edits, context, spans[k - 1]) && Shows(left, right, edits, spans[k - 1], out[k - 1]); }
    var b := Before(spans, k);
    Ends(edits);
    if k == |out| {
      FullScript(left, right, edits);
      MatchedSlices(left, right, edits, b, |edits|);
      assert left[L(edits, b)..] == left[L(edits, b)..|left|] && right[R(edits, b)..] == right[R(edits, b)..|right|];
    } else {
      PatchFrom(left, right, edits, context, spans, out, k + 1);
      assert FollowsOn(edits, spans, k) && Shows(left, right, edits, spans[k], out[k]);
      var from, to := spans[k].from, spans[k].to;
      MatchedSlices(left, right, edits, b, from);
      PatchOne(left, right, out[k..], L(edits, b), L(edits, from), L(edits, to), R(edits, b), R(edits, from), R(edits, to));
    }
  }

  lemma FullScript(left: seq<string>, right: seq<string>, edits: seq<EditType>)
    requires IsScript(edits, left, right)
    ensures L(edits, |edits|) == |left| && R(edits, |edits|) == |right|
  {
    Ends(edits);
  }

  /** Copying up to a hunk and replacing its slice carries the patched text forward. */
  lemma PatchOne(left: seq<string>, right: seq<string>, hunks: seq<HunkText>,
                 l0: nat, l1: nat, l2: nat, r0: nat, r1: nat, r2: nat)
    requires l0 <= l1 <= l2 <= |left| && r0 <= r1 <= r2 <= |right| && hunks != []
    requires left[l0..l1] == right[r0..r1]
    requires hunks[0].leftStart == l1 + 1
    requires Lefts(hunks[0].lines) == left[l1..l2] && Rights(hunks[0].lines) == right[r1..r2]
    requires ApplyPatch(left, hunks[1..], l2) == Patched(right[r2..])
    ensures ApplyPatch(left, hunks, l0) == Patched(right[r0..])
  {
    hide Lefts, Rights;
    assert right[r0..] == right[r0..r1] + right[r1..r2] + right[r2..];
  }

  /** Replacing the slices turns left into right. */
  lemma PatchRestores(left: seq<string>, right: seq<string>, edits: seq<EditType>, context: nat, spans: seq<Span>, out: seq<HunkText>)
    requires IsDiff(left, right, edits, context, spans, out)
    ensures ApplyPatch(left, out, 0) == Patched(right)
  {
    PatchFrom(left, right, edits, context, spans, out, 0);
    Ends(edits);
    assert out[0..] == out && right[0..] == right;
  }

  /** The diff is empty exactly when the texts are equal. */
  lemma EmptyIffEqual(left: seq<string>, right: seq<string>, context: nat, spans: seq<Span>, out: seq<HunkText>)
    requires IsDiff(left, right, Edits(left, right), context, spans, out)
    ensures out == [] <==> left == right
  {
    var edits := Edits(left, right);
    AllMatchIffEqual(left, right);
    if out != [] {
      assert IsSpan(edits, context, spans[0]);
      assert edits[NextEdit(edits, spans[0].from)] != Match;
    } else {
      assert forall p | 0 <= p < |edits| :: edits[p] == Match;
    }
  }

  /** The net growth of the first k hunks. */
  function Growth(out: seq<HunkText>, k: nat): int
    requires k <= |out|
  {
    if k == 0 then 0 else Growth(out, k - 1) + Count(out[k - 1].lines, '+') - Count(out[k - 1].lines, '-')
  }

  /** A start line omitted from a header is determined by the other one: the two differ by the growth of the earlier hunks. */
  lemma {:induction false} StartLinesAgree(left: seq<string>, right: seq<string>, edits: seq<EditType>, context: nat,
                                           spans: seq<Span>, out: seq<HunkText>, k: nat)
    requires IsDiff(left, right, edits, context, spans, out) && k <= |out|
    ensures Before(spans, k) <= |edits|
    ensures R(edits, Before(spans, k)) == L(edits, Before(spans, k)) + Growth(out, k)
    ensures k < |out| ==> out[k].rightStart == out[k].leftStart + Growth(out, k)
  {
    hide L, R, M, Lefts, Rights, Count, IsSpan, NextEdit, IsScript;
    Ends(edits);
    if k > 0 {
      StartLinesAgree(left, right, edits, context, spans, out, k - 1);
      assert Shows(left, right, edits, spans[k - 1], out[k - 1]);
      SideLengths(out[k - 1].lines);
    }
    if k < |out| {
      assert FollowsOn(edits, spans, k) && Shows(left, right, edits, spans[k], out[k]);
      StepMatches(edits, Before(spans, k), spans[k].from);
    }
  }

  // ---------------------------------------------------------------- the context law

  ghost predicate Covered(spans: seq<Span>, p: nat) {
    exists k :: 0 <= k < |spans| && spans[k].from <= p < spans[k].to
  }

  ghost predicate NearChange(edits: seq<EditType>, context: nat, p: nat) {
    exists q :: 0 <= q < |edits| && edits[q] != Match && p - context <= q <= p + context
  }

  /** Position p lies in span k, or in the gap in front of span k, or (k == |spans|) behind the last span. */
  lemma {:induction false} Locate(edits: seq<EditType>, context: nat, spans: seq<Span>, p: nat, n: nat) returns (k: nat)
    requires AreSpans(edits, context, spans) && n <= |spans| && Before(spans, n) <= p
    ensures k <= |spans| && Before(spans, k) <= p && (k < |spans| ==> p < spans[k].to)
    decreases |spans| - n
  {
    if n == |spans| || p < spans[n].to { k := n; } else { k := Locate(edits, context, spans, p, n + 1); }
  }

  lemma LastEditBefore(edits: seq<EditType>, from: nat, p: nat) returns (q: nat)
    requires from <= p < |edits| && edits[from] != Match
    ensures from <= q <= p && edits[q] != Match
    ensures forall x | q < x <= p :: edits[x] == Match
  {
    q := p;
    while edits[q] == Match
      invariant from <= q <= p
      invariant forall x | q < x <= p :: edits[x] == Match
      decreases q
    {
      q := q - 1;
    }
  }

  lemma CoveredIsNear(edits: seq<EditType>, context: nat, s: Span, p: nat)
    requires IsSpan(edits, context, s) && s.from <= p < s.to
    ensures NearChange(edits, context, p)
  {
    var first := NextEdit(edits, s.from);
    var last :| s.from <= last && IsLastEdit(edits, last, s.to) && s.to - 1 - last == Min(context, |edits| - 1 - last);
    if p <= first {
      assert edits[first] != Match && p - context <= first <= p + context;
    } else if last <= p {
      assert edits[last] != Match && p - context <= last <= p + context;
    } else {
      var q := LastEditBefore(edits, first, p);
      var q' := NextEdit(edits, q + 1);
      assert q' <= last && q' - q - 1 < 2 * context;
      assert edits[q'] != Match && edits[q] != Match;
      if p - q <= context {
        assert p - context <= q <= p + context;
      } else {
        assert p - context <= q' <= p + context;
      }
    }
  }

  /** A line is shown exactly when it is changed or within context lines of a change. */
  lemma CoveredIffNear(left: seq<string>, right: seq<string>, edits: seq<EditType>, context: nat,
                       spans: seq<Span>, out: seq<HunkText>, p: nat)
    requires IsDiff(left, right, edits, context, spans, out) && p < |edits|
    ensures Covered(spans, p) <==> NearChange(edits, context, p)
  {
    hide NextEdit, IsSpan, IsScript, Shows, FollowsOn, NearChange;
    var k := Locate(edits, context, spans, p, 0);
    if k < |spans| && spans[k].from <= p {
      CoveredIsNear(edits, context, spans[k], p);
    } else {
      GapIsFar(edits, context, spans, p, k);
      forall j | 0 <= j < |spans| && spans[j].from <= p < spans[j].to ensures false {
        CoveredIsNear(edits, context, spans[j], p);
      }
    }
  }

  lemma GapIsFar(edits: seq<EditType>, context: nat, spans: seq<Span>, p: nat, k: nat)
    requires AreSpans(edits, context, spans) && k <= |spans| && p < |edits|
    requires Before(spans, |spans|) <= |edits| && NextEdit(edits, Before(spans, |spans|)) == |edits|
    requires Before(spans, k) <= p && (k < |spans| ==> p < spans[k].from)
    ensures !NearChange(edits, context, p)
  {
    hide NextEdit, IsSpan;
    if k < |spans| { assert FollowsOn(edits, spans, k) && IsSpan(edits, context, spans[k]); }
    if k > 0 { assert IsSpan(edits, context, spans[k - 1]); }
    forall q: nat | q < |edits| && edits[q] != Match ensures !(p - context <= q <= p + context) {
      if q < Before(spans, k) {
        EarlierEditIsFar(edits, context, spans[k - 1], q, p);
      } else if k < |spans| {
        LaterEditIsFar(edits, context, spans[k], q, p);
      }
    }
  }

  lemma EarlierEditIsFar(edits: seq<EditType>, context: nat, s: Span, q: nat, p: nat)
    requires IsSpan(edits, context, s) && q < s.to <= p < |edits| && edits[q] != Match
    ensures p - q > context
  {
    var last :| s.from <= last && IsLastEdit(edits, last, s.to) && s.to - 1 - last == Min(context, |edits| - 1 - last);
    assert q <= last;
  }

  lemma LaterEditIsFar(edits: seq<EditType>, context: nat, s: Span, q: nat, p: nat)
    requires IsSpan(edits, context, s) && p < s.from <= q < |edits| && edits[q] != Match
    ensures q - p > context
  {
    assert NextEdit(edits, s.from) <= q;
  }
}