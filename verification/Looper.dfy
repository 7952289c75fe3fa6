/**
 The wake protocol of the event loop: one thread runs loop(), any number of threads call terminate(), and a pipe carries one
 two-byte token per call.  Every assignment, pipe operation and wait is one atomic step; steps of different threads interleave
 freely.
 */
module Looper {

  /** Where the looping thread stands. */
  datatype Pc =
    | Outside                  // not in loop()
    | Testing                  // about to test the flag
    | Waiting                  // blocked in the wait set
    | Woken(trivial: bool)     // a source has been returned, its reader has not run
    | Read                     // the reader has run, onAwoken has not
    | Resetting                // past the while loop, about to clear the flag

  datatype State = State(pc: Pc, flag: bool, pipe: seq<char>, pending: nat, written: nat, consumed: nat, exits: nat)

  /** "w" with its terminating NUL. */
  const TOKEN: seq<char> := ['w', '\0']

  /** pending counts the terminate() calls that have raised the flag and not yet written their token. */
  datatype Step = Raise | Write | Enter | Test | Wake(source: Source) | RunReader | OnAwoken | Reset

  datatype Source = NoSource | Trivial | Other

  predicate IsLoopStep(step: Step) { step != Raise && step != Write }

  predicate Enabled(s: State, step: Step, capacity: nat) {
    match step
    case Raise => true
    case Write => s.pending > 0 && |s.pipe| + |TOKEN| <= capacity
    case Enter => s.pc == Outside
    case Test => s.pc == Testing
    case Wake(source) => s.pc == Waiting && (source == Trivial ==> s.pipe != [])
    case RunReader => s.pc.Woken?
    case OnAwoken => s.pc == Read
    case Reset => s.pc == Resetting
  }

  /** The number of bytes a read of the trivial source's buffer size returns. */
  function ReadSize(s: State): nat { if |s.pipe| < |TOKEN| then |s.pipe| else |TOKEN| }

  function After(s: State, step: Step): State
    requires step == Write ==> s.pending > 0
    requires step == RunReader ==> s.pc.Woken?
  {
    match step
    case Raise => s.(flag := true, pending := s.pending + 1)
    case Write => s.(pipe := s.pipe + TOKEN, pending := s.pending - 1, written := s.written + 1)
    case Enter => s.(pc := Testing)
    case Test => s.(pc := if s.flag then Resetting else Waiting)
    case Wake(source) => s.(pc := if source == NoSource then Testing else Woken(source == Trivial))
    case RunReader => if s.pc.trivial then s.(pc := Read, pipe := s.pipe[ReadSize(s)..], consumed := s.consumed + 1) else s.(pc := Read)
    case OnAwoken => s.(pc := Testing)
    case Reset => s.(pc := Outside, flag := false, exits := s.exits + 1)
  }

  const START: State := State(Outside, false, [], 0, 0, 0, 0)

  // ---------------------------------------------------------------- the code, one atomic step after the other

  /** A step of some other thread. */
  predicate IsOther(step: Step) { step == Raise || step == Write }

  /** For each step of the looping thread, the steps the other threads take before it. */
  ghost predicate AreOthers(others: seq<seq<Step>>) { forall k | 0 <= k < |others| :: AllOther(others[k]) }

  predicate AllOther(steps: seq<Step>) { forall k | 0 <= k < |steps| :: IsOther(steps[k]) }

  /** Some other thread calls terminate() among the first n of these steps. */
  predicate RaisedIn(others: seq<seq<Step>>, n: int) { exists k :: 0 <= k < n && k < |others| && Raise in others[k] }

  lemma RaisedNext(others: seq<seq<Step>>, n: nat)
    requires n < |others|
    ensures RaisedIn(others, n + 1) <==> RaisedIn(others, n) || Raise in others[n]
  {
  }

  lemma NobodyYet(others: seq<seq<Step>>)
    ensures !RaisedIn(others, 0)
  {
  }

  lemma QuietUpTo(others: seq<seq<Step>>, quiet: nat, n: int)
    requires !RaisedIn(others, quiet)
    ensures n <= quiet ==> !RaisedIn(others, n)
  {
  }

  /** The fields of the looper and of its trivial source's pipe, and the run so far. */
  class Looper {
    var shouldTerminate: bool
    var pipe: seq<char>
    const capacity: nat
    ghost var pc: Pc
    var pending: nat
    ghost var written: nat
    ghost var consumed: nat
    ghost var exits: nat
    ghost var run: seq<State>
    ghost var steps: seq<Step>

    ghost function View(): State
      reads this
    {
      State(pc, shouldTerminate, pipe, pending, written, consumed, exits)
    }

    /** The object stands where a run of the protocol has brought it. */
    ghost predicate Valid()
      reads this
    {
      IsRun(run, steps, capacity) && run[0] == START && run[|run| - 1] == View()
    }

    /** The steps the looping thread has taken. */
    ghost function Own(): nat
      reads this
    {
      LoopSteps(steps)
    }

    /** After the trivial source has been created. */
    constructor (size: nat)
      ensures Valid() && View() == START && capacity == size && steps == []
    {
      shouldTerminate, pipe, capacity := false, [], size;
      pc, pending, written, consumed, exits := Outside, 0, 0, 0, 0;
      run, steps := [START], [];
    }

    /** The fields have changed as the step says. */
    ghost method Record(step: Step)
      requires IsRun(run, steps, capacity) && run[0] == START
      requires Enabled(run[|run| - 1], step, capacity) && View() == After(run[|run| - 1], step)
      modifies `run, `steps
      ensures Valid() && steps == old(steps) + [step] && Own() == old(Own()) + if IsLoopStep(step) then 1 else 0
    {
      LoopStepsSnoc(steps, step);
      RunSnoc(run, steps, View(), step, capacity);
      run, steps := run + [View()], steps + [step];
    }

    /** terminate() of another thread: the flag first, the token later. */
    method TerminateRaise()
      requires Valid()
      modifies this
      ensures shouldTerminate
      ensures Valid() && steps == old(steps) + [Raise] && Own() == old(Own()) && View() == After(old(View()), Raise)
    {
      shouldTerminate := true;
      pending := pending + 1;
      Record(Raise);
    }

    method TerminateWrite()
      requires Valid() && Enabled(View(), Write, capacity)
      modifies this
      ensures Valid() && steps == old(steps) + [Write] && Own() == old(Own()) && View() == After(old(View()), Write)
    {
      pipe := pipe + TOKEN;
      pending, written := pending - 1, written + 1;
      Record(Write);
    }

    /** What the other threads do meanwhile; a write that is not enabled waits. */
    method Interleave(others: seq<Step>)
      requires Valid() && AllOther(others)
      modifies this
      ensures Valid() && old(steps) <= steps && AllOther(steps[|old(steps)|..])
      ensures pc == old(pc) && exits == old(exits) && Own() == old(Own()) && (old(shouldTerminate) ==> shouldTerminate)
      ensures pipe != [] || old(pipe) == []
      ensures Raise in others ==> shouldTerminate
    {
      hide IsRun, Own;
      for i := 0 to |others|
        invariant Valid() && old(steps) <= steps && AllOther(steps[|old(steps)|..])
        invariant pc == old(pc) && exits == old(exits) && Own() == old(Own()) && (old(shouldTerminate) ==> shouldTerminate)
        invariant pipe != [] || old(pipe) == []
        invariant Raise in others[..i] ==> shouldTerminate
      {
        assert others[..i + 1] == others[..i] + [others[i]];
        if others[i] == Raise {
          TerminateRaise();
        } else if pending > 0 && |pipe| + |TOKEN| <= capacity {
          TerminateWrite();
        }
      }
      assert others[..|others|] == others;
    }

    method Enter()
      requires Valid() && pc == Outside
      modifies this
      ensures Valid() && steps == old(steps) + [Step.Enter] && Own() == old(Own()) + 1 && View() == old(View()).(pc := Testing)
    {
      pc := Testing;
      Record(Step.Enter);
    }

    /** The test of the while. */
    method Test() returns (continues: bool)
      requires Valid() && pc == Testing
      modifies this
      ensures Valid() && steps == old(steps) + [Step.Test] && Own() == old(Own()) + 1 && continues == !shouldTerminate
      ensures View() == old(View()).(pc := if continues then Waiting else Resetting)
    {
      continues := !shouldTerminate;
      pc := if continues then Waiting else Resetting;
      Record(Step.Test);
    }

    /** The wait set's answer; the trivial source answers only when there is something in its pipe. */
    method Wait(source: Source)
      requires Valid() && pc == Waiting && (source == Trivial ==> pipe != [])
      modifies this
      ensures Valid() && steps == old(steps) + [Wake(source)] && Own() == old(Own()) + 1
      ensures View() == old(View()).(pc := if source == NoSource then Testing else Woken(source == Trivial))
    {
      pc := if source == NoSource then Testing else Woken(source == Trivial);
      Record(Wake(source));
    }

    /** The reader of the source; that of the trivial one asserts that it has read a whole token. */
    method Reader(trivial: bool)
      requires Valid() && pc == Woken(trivial)
      modifies this
      ensures Valid() && steps == old(steps) + [RunReader] && Own() == old(Own()) + 1 && View() == After(old(View()), RunReader)
      ensures trivial ==> old(pipe) == TOKEN + pipe
    {
      if trivial {
        RunIsSafe();
        var size := if |pipe| < |TOKEN| then |pipe| else |TOKEN|;
        assert size == |TOKEN|;
        pipe := pipe[size..];
        consumed := consumed + 1;
      }
      pc := Read;
      Record(RunReader);
    }

    method Awoken()
      requires Valid() && pc == Read
      modifies this
      ensures Valid() && steps == old(steps) + [OnAwoken] && Own() == old(Own()) + 1 && View() == old(View()).(pc := Testing)
    {
      pc := Testing;
      Record(OnAwoken);
    }

    method Reset()
      requires Valid() && pc == Resetting
      modifies this
      ensures Valid() && steps == old(steps) + [Step.Reset] && Own() == old(Own()) + 1
      ensures View() == old(View()).(pc := Outside, flag := false, exits := old(exits) + 1)
    {
      shouldTerminate := false;
      pc, exits := Outside, exits + 1;
      Record(Step.Reset);
    }

    lemma WaitIsSafe()
      requires Valid()
      ensures pc == Waiting && shouldTerminate ==> pending > 0 || pipe != []
    {
      RunIsSafe();
    }

    lemma RunIsSafe()
      requires Valid()
      ensures Invariant(View()) && (pc == Woken(true) ==> |pipe| >= |TOKEN| && pipe == TOKEN + pipe[|TOKEN|..])
    {
      assert Tokens(0) == [];
      RunKeepsInvariant(run, steps, capacity, |run| - 1);
      if pipe != [] { WholeTokensSplit(pipe); }
    }

    /**
     loop(), as long as the schedule lasts: before its k-th step the other threads take others[k], and its k-th wait is answered by
     answers[k].  It stops early only when it returns, or in a wait that nothing answers.  A terminate() of another thread makes it
     return within five more turns, unless it waits for an answer that the schedule does not have or for a token still to be written.
     */
    method Loop(others: seq<seq<Step>>, answers: seq<Source>) returns (returned: bool, turns: nat, waits: nat)
      requires Valid() && pc == Outside && AreOthers(others)
      modifies this
      ensures Valid() && old(steps) <= steps && Own() == old(Own()) + turns && turns <= |others| && waits <= |answers|
      ensures returned ==> pc == Outside && !shouldTerminate && exits == old(exits) + 1
      ensures !returned ==> exits == old(exits)
      ensures !returned ==> turns == |others| || (pc == Waiting && (waits == |answers| || (answers[waits] == Trivial && pipe == [])))
      ensures old(shouldTerminate) && |others| >= 3 ==> returned && turns == 3
      ensures RaisedIn(others, |others| - 5) ==> returned || (pc == Waiting && turns < |others|)
      ensures !returned && RaisedIn(others, turns) ==> shouldTerminate
      ensures !returned && shouldTerminate && turns < |others| && waits < |answers| ==> pending > 0
    {
      hide IsRun, Invariant, Valid, AllOther, Own, RaisedIn;
      returned, turns, waits := false, 0, 0;
      NobodyYet(others);
      QuietUpTo(others, 0, |others| - 5);
      if turns == |others| { return; }
      RaisedNext(others, turns);
      Interleave(others[turns]);
      Enter();
      turns := 1;
      // nobody has called terminate() before the last test
      ghost var quiet := 0;
      while true
        invariant Valid() && old(steps) <= steps && pc == Testing && exits == old(exits)
        invariant Own() == old(Own()) + turns && turns <= |others| && waits <= |answers|
        invariant old(shouldTerminate) ==> shouldTerminate && turns == 1
        invariant RaisedIn(others, turns) ==> shouldTerminate
        invariant !RaisedIn(others, quiet) && turns <= quiet + 3
        decreases |others| - turns
      {
        QuietUpTo(others, quiet, |others| - 5);
        if turns == |others| { return; }
        RaisedNext(others, turns);
        Interleave(others[turns]);
        var continues := Test();
        turns := turns + 1;
        if !continues { break; }
        quiet := turns;
        QuietUpTo(others, quiet, |others| - 5);
        var over;
        over, turns, waits := WaitAndServe(others, turns, answers, waits);
        if over { return; }
      }
      if turns == |others| { return; }
      Interleave(others[turns]);
      Reset();
      returned, turns := true, turns + 1;
    }

    /** The body of the while, until the next test, the end of the schedule, or a wait that nothing answers. */
    method WaitAndServe(others: seq<seq<Step>>, turns: nat, answers: seq<Source>, waits: nat)
      returns (over: bool, next: nat, waited: nat)
      requires Valid() && pc == Waiting && AreOthers(others) && turns <= |others| && waits <= |answers|
      requires RaisedIn(others, turns) ==> shouldTerminate
      modifies this
      ensures Valid() && old(steps) <= steps && exits == old(exits)
      ensures turns <= next <= |others| && waits <= waited <= |answers| && Own() == old(Own()) + (next - turns)
      ensures if !over then pc == Testing && next > turns
              else next == |others| || (pc == Waiting && (waited == |answers| || (answers[waited] == Trivial && pipe == [])))
      ensures next <= turns + 3 && (RaisedIn(others, next) ==> shouldTerminate)
      ensures over && shouldTerminate && next < |others| && waited < |answers| ==> pending > 0
    {
      hide IsRun, Invariant, Valid, AllOther, Own, RaisedIn;
      over, next, waited := true, turns, waits;
      if next == |others| || waited == |answers| { return; }
      RaisedNext(others, next);
      Interleave(others[next]);
      var source := answers[waited];
      WaitIsSafe();
      if source == Trivial && pipe == [] { return; }
      Wait(source);
      next, waited := next + 1, waited + 1;
      if source == NoSource {
        over := false;
      } else {
        over, next := Serve(others, next, source == Trivial);
      }
    }

    /** The source that woke the loop: its reader, then its notification. */
    method Serve(others: seq<seq<Step>>, turns: nat, trivial: bool) returns (over: bool, next: nat)
      requires Valid() && pc == Woken(trivial) && AreOthers(others) && turns <= |others|
      requires RaisedIn(others, turns) ==> shouldTerminate
      modifies this
      ensures Valid() && old(steps) <= steps && exits == old(exits)
      ensures turns <= next <= |others| && Own() == old(Own()) + (next - turns)
      ensures if over then next == |others| else pc == Testing
      ensures next <= turns + 2 && (RaisedIn(others, next) ==> shouldTerminate)
    {
      hide IsRun, Invariant, Valid, AllOther, Own, RaisedIn;
      over, next := true, turns;
      if next == |others| { return; }
      RaisedNext(others, next);
      Interleave(others[next]);
      Reader(trivial);
      next := next + 1;
      if next == |others| { return; }
      RaisedNext(others, next);
      Interleave(others[next]);
      Awoken();
      over, next := false, next + 1;
    }
  }

  lemma {:induction false} LoopStepsSnoc(steps: seq<Step>, step: Step)
    ensures LoopSteps(steps + [step]) == LoopSteps(steps) + if IsLoopStep(step) then 1 else 0
  {
    if steps != [] {
      LoopStepsSnoc(steps[1..], step);
      assert (steps + [step])[1..] == steps[1..] + [step];
    }
  }

  lemma RunSnoc(run: seq<State>, steps: seq<Step>, s: State, step: Step, capacity: nat)
    requires IsRun(run, steps, capacity) && Enabled(run[|run| - 1], step, capacity) && s == After(run[|run| - 1], step)
    ensures IsRun(run + [s], steps + [step], capacity)
  {
    var run', steps' := run + [s], steps + [step];
    forall k | 0 <= k < |steps'| ensures Enabled(run'[k], steps'[k], capacity) && run'[k + 1] == After(run'[k], steps'[k]) {
      if k < |steps| { assert run'[k] == run[k] && run'[k + 1] == run[k + 1] && steps'[k] == steps[k]; }
    }
  }

  // ---------------------------------------------------------------- what every step keeps

  /** n tokens one behind the other. */
  function Tokens(n: nat): seq<char> { if n == 0 then [] else TOKEN + Tokens(n - 1) }

  ghost predicate Invariant(s: State) {
    && s.consumed <= s.written
    && s.pipe == Tokens(s.written - s.consumed)
    && (s.pc == Woken(true) ==> s.pipe != [])
    && (s.pc == Resetting ==> s.flag)
    && NoLostWakeUp(s)
    && s.exits + (if s.flag then 1 else 0) <= s.pending + s.written
  }

  /** A loop that waits with the flag set has a token to wake it, or a caller about to write one. */
  ghost predicate NoLostWakeUp(s: State) {
    s.pc == Waiting && s.flag ==> s.pending > 0 || s.pipe != []
  }

  lemma {:induction false} TokensSnoc(n: nat)
    ensures Tokens(n) + TOKEN == Tokens(n + 1)
  {
    if n > 0 {
      TokensSnoc(n - 1);
      assert Tokens(n) + TOKEN == TOKEN + (Tokens(n - 1) + TOKEN);
    }
  }

  ghost predicate WholeTokens(pipe: seq<char>) { exists n: nat :: pipe == Tokens(n) }

  lemma WholeTokensSplit(pipe: seq<char>)
    requires WholeTokens(pipe) && pipe != []
    ensures |pipe| >= |TOKEN| && pipe == TOKEN + pipe[|TOKEN|..] && WholeTokens(pipe[|TOKEN|..])
  {
    var n: nat :| pipe == Tokens(n);
    assert pipe[|TOKEN|..] == Tokens(n - 1);
  }

  lemma StepKeepsInvariant(s: State, step: Step, capacity: nat)
    requires Invariant(s) && Enabled(s, step, capacity)
    ensures Invariant(After(s, step))
  {
    match step
    case Write => TokensSnoc(s.written - s.consumed);
    case RunReader =>
      if s.pc.trivial {
        assert s.written > s.consumed;
        assert s.pipe[|TOKEN|..] == Tokens(s.written - s.consumed - 1);
      }
    case _ =>
  }

  // ---------------------------------------------------------------- whole runs

  /** run[k + 1] follows from run[k] by steps[k]. */
  ghost predicate IsRun(run: seq<State>, steps: seq<Step>, capacity: nat) {
    && |run| == |steps| + 1
    && forall k | 0 <= k < |steps| :: Enabled(run[k], steps[k], capacity) && run[k + 1] == After(run[k], steps[k])
  }

  ghost predicate Reachable(s: State, capacity: nat) {
    exists run, steps :: IsRun(run, steps, capacity) && run[0] == START && run[|run| - 1] == s
  }

  lemma {:induction false} RunKeepsInvariant(run: seq<State>, steps: seq<Step>, capacity: nat, k: nat)
    requires IsRun(run, steps, capacity) && Invariant(run[0]) && k < |run|
    ensures Invariant(run[k])
  {
    if k > 0 {
      RunKeepsInvariant(run, steps, capacity, k - 1);
      StepKeepsInvariant(run[k - 1], steps[k - 1], capacity);
    }
  }

  /** In every interleaving: whole tokens, no short read, no lost wake-up, and no return from loop() without a request of its own. */
  lemma ReachableIsSafe(s: State, capacity: nat)
    requires Reachable(s, capacity)
    ensures WholeTokens(s.pipe)
    ensures s.pc == Woken(true) ==> ReadSize(s) == |TOKEN|
    ensures s.pc == Waiting && s.flag ==> s.pending > 0 || |s.pipe| >= |TOKEN|
    ensures s.exits <= s.pending + s.written
  {
    var run, steps :| IsRun(run, steps, capacity) && run[0] == START && run[|run| - 1] == s;
    assert Tokens(0) == [];
    RunKeepsInvariant(run, steps, capacity, |run| - 1);
    assert s.pipe == Tokens(s.written - s.consumed);
    if s.pipe != [] { WholeTokensSplit(s.pipe); }
  }

  /** The last request came after the last return. */
  predicate Requested(steps: seq<Step>) {
    steps != [] && var last := |steps| - 1; steps[last] == Raise || (steps[last] != Reset && Requested(steps[..last]))
  }

  /** Where the last of its own steps has left the looping thread: the test alone looks at the flag. */
  function Stands(steps: seq<Step>): Pc {
    if steps == [] then Outside
    else
      var before := steps[..|steps| - 1];
      match steps[|steps| - 1]
      case Raise | Write => Stands(before)
      case Enter | OnAwoken | Wake(NoSource) => Testing
      case Test => if Requested(before) then Resetting else Waiting
      case Wake(Trivial) => Woken(true)
      case Wake(Other) => Woken(false)
      case RunReader => Read
      case Reset => Outside
  }

  /**
   The steps taken so far tell the whole state: every request is counted until its token is written, every written token lies in the
   pipe until the reader runs that it has woken the loop for, and the flag is up exactly between a request and the next return.
   */
  ghost predicate Told(s: State, steps: seq<Step>) {
    var count := multiset(steps);
    && s.written == count[Write] && s.pending + s.written == count[Raise] && s.exits == count[Reset]
    && s.consumed + (if s.pc == Woken(true) then 1 else 0) == count[Wake(Trivial)]
    && s.consumed <= s.written && s.pipe == Tokens(s.written - s.consumed)
    && s.flag == Requested(steps) && s.pc == Stands(steps)
  }

  lemma StandsNext(steps: seq<Step>, step: Step)
    ensures Requested(steps + [step]) == (step == Raise || (step != Reset && Requested(steps)))
    ensures Stands(steps + [step]) ==
            match step
            case Raise | Write => Stands(steps)
            case Enter | OnAwoken => Testing
            case Wake(source) => if source == NoSource then Testing else Woken(source == Trivial)
            case Test => if Requested(steps) then Resetting else Waiting
            case RunReader => Read
            case Reset => Outside
  {
    assert (steps + [step])[..|steps|] == steps;
  }

  lemma CountsNext(steps: seq<Step>, step: Step)
    ensures var count, next := multiset(steps), multiset(steps + [step]);
            && next[Write] == count[Write] + (if step == Write then 1 else 0)
            && next[Raise] == count[Raise] + (if step == Raise then 1 else 0)
            && next[Reset] == count[Reset] + (if step == Reset then 1 else 0)
            && next[Wake(Trivial)] == count[Wake(Trivial)] + (if step == Wake(Trivial) then 1 else 0)
  {
  }

  lemma ToldNext(s: State, steps: seq<Step>, step: Step, capacity: nat)
    requires Told(s, steps) && Enabled(s, step, capacity) && Invariant(After(s, step))
    ensures Told(After(s, step), steps + [step])
  {
    hide Requested, Stands, Tokens, NoLostWakeUp;
    StandsNext(steps, step);
    CountsNext(steps, step);
  }

  lemma {:induction false} HistoryTells(run: seq<State>, steps: seq<Step>, capacity: nat)
    requires IsRun(run, steps, capacity) && run[0] == START
    ensures Told(run[|steps|], steps)
  {
    hide Told, Invariant;
    BeginsWell();
    RunKeepsInvariant(run, steps, capacity, |steps|);
    if steps != [] {
      var last := |steps| - 1;
      HistoryTells(run[..last + 1], steps[..last], capacity);
      assert steps == steps[..last] + [steps[last]];
      assert Enabled(run[last], steps[last], capacity) && run[last + 1] == After(run[last], steps[last]);
      hide IsRun, After;
      ToldNext(run[last], steps[..last], steps[last], capacity);
    }
  }

  lemma BeginsWell()
    ensures Told(START, []) && Invariant(START)
  {
    assert Tokens(0) == [];
  }

  /** With room for one token, a raised loop is never stuck: its own next step, or the write that lets it wake, is enabled. */
  lemma NeverStuck(s: State, capacity: nat)
    requires Invariant(s) && s.flag && s.pc != Outside && capacity >= |TOKEN|
    ensures exists step :: Enabled(s, step, capacity) && step != Raise && (IsLoopStep(step) || (s.pc == Waiting && s.pipe == []))
  {
    var step := match s.pc
      case Outside => Enter
      case Testing => Test
      case Waiting => if s.pipe != [] then Wake(Trivial) else Write
      case Woken(_) => RunReader
      case Read => OnAwoken
      case Resetting => Reset;
    assert Enabled(s, step, capacity);
  }

  /** The loop's own steps left before it returns, once the flag is up. */
  function Remaining(pc: Pc): nat {
    match pc case Waiting => 5 case Woken(_) => 4 case Read => 3 case Testing => 2 case Resetting => 1 case Outside => 0
  }

  function LoopSteps(steps: seq<Step>): nat {
    if steps == [] then 0 else (if IsLoopStep(steps[0]) then 1 else 0) + LoopSteps(steps[1..])
  }

  /** Once the flag is up, loop() returns within five of its own steps, whatever the other threads and sources do. */
  lemma {:induction false} RaisedLoopReturns(run: seq<State>, steps: seq<Step>, capacity: nat)
    requires IsRun(run, steps, capacity) && run[0].flag && run[0].pc != Outside
    requires LoopSteps(steps) >= Remaining(run[0].pc)
    ensures exists k :: 0 <= k < |run| && run[k].pc == Outside && run[k].exits == run[0].exits + 1
    decreases |steps|
  {
    var run', steps' := run[1..], steps[1..];
    assert run[1] == After(run[0], steps[0]);
    if run[1].pc != Outside {
      assert IsRun(run', steps', capacity) by {
        forall k | 0 <= k < |steps'| ensures Enabled(run'[k], steps'[k], capacity) && run'[k + 1] == After(run'[k], steps'[k]) {
          assert run'[k] == run[k + 1] && steps'[k] == steps[k + 1] && run'[k + 1] == run[k + 2];
        }
      }
      RaisedLoopReturns(run', steps', capacity);
      var k :| 0 <= k < |run'| && run'[k].pc == Outside && run'[k].exits == run[0].exits + 1;
      assert run[k + 1].pc == Outside;
    }
  }

  /** A call of terminate() while loop() runs makes it return within five of its own steps, whatever else happens. */
  lemma {:induction false} TerminateMakesLoopReturn(run: seq<State>, steps: seq<Step>, capacity: nat)
    requires IsRun(run, steps, capacity) && steps != [] && steps[0] == Raise && run[0].pc != Outside
    requires LoopSteps(steps) >= Remaining(run[0].pc)
    ensures exists k :: 0 <= k < |run| && run[k].pc == Outside && run[k].exits == run[0].exits + 1
  {
    var run', steps' := run[1..], steps[1..];
    assert run[1] == After(run[0], Raise);
    assert IsRun(run', steps', capacity) by {
      forall k | 0 <= k < |steps'| ensures Enabled(run'[k], steps'[k], capacity) && run'[k + 1] == After(run'[k], steps'[k]) {
        assert run'[k] == run[k + 1] && steps'[k] == steps[k + 1] && run'[k + 1] == run[k + 2];
      }
    }
    RaisedLoopReturns(run', steps', capacity);
    var k :| 0 <= k < |run'| && run'[k].pc == Outside && run'[k].exits == run[0].exits + 1;
    assert run[k + 1] == run'[k];
  }
}
