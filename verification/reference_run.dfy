/** What `executeScript` does to a balanced command list, read off the loop
    structure instead of the program counter: each command in turn, and a
    loop as its body and `END` repeated `Iterations` times. The executor
    under the quiet environment is proved to produce exactly this trace, and
    from it how often each command runs. */
module ReferenceRun {
  import opened Wrappers
  import opened ScriptCommands
  import opened ScriptExecutor

  /** The events a command other than a loop boundary makes when its send
      resolves. */
  function Effects(c: ScriptCommand): seq<Event> {
    match c
    case Send(v) => if v == "" then [] else [Transmit(v)]
    case Delay(v) => if v == "" then [] else [Wait(v)]
    case _ => []
  }

  /** The passes still to run for a frame with `current` passes finished:
      the executor leaves the loop once `current + 1` reaches the count. */
  function Remaining(count: int, current: nat): (n: nat)
    ensures n >= 1
  {
    if current + 1 < count then count - current else 1
  }

  /** The trace of running `cs[i..j]`, a balanced stretch, once. */
  function Exec(cs: seq<ScriptCommand>, i: nat, j: nat): seq<Event>
    requires i <= j <= |cs| && Nested(cs, i, j, 0)
    decreases j - i, 0
  {
    if i == j then []
    else
      var report := [Progress(i + 1, |cs|)];
      match cs[i]
      case LoopStart(n) =>
        var k := MatchingEnd(cs, i + 1, j, 0);
        report + Repeat(cs, i, k, Iterations(n)) + Exec(cs, k + 1, j)
      case LoopEnd =>
        assert false;
        []
      case _ =>
        report + Effects(cs[i]) + Exec(cs, i + 1, j)
  }

  /** `times` passes of the loop opened at `i` and closed at `k`: its body,
      then its `END`. */
  function Repeat(cs: seq<ScriptCommand>, i: nat, k: nat, times: nat): seq<Event>
    requires i < k < |cs| && Nested(cs, i + 1, k, 0)
    decreases k - i, times
  {
    if times == 0 then []
    else Exec(cs, i + 1, k) + [Progress(k + 1, |cs|)] + Repeat(cs, i, k, times - 1)
  }

  /** A stretch opening with a loop: its `LOOP_START`, its passes, then what
      follows its `END`. */
  lemma ExecLoop(cs: seq<ScriptCommand>, i: nat, j: nat)
    requires i < j <= |cs| && Nested(cs, i, j, 0) && cs[i].LoopStart?
    ensures Nested(cs, i + 1, j, 1)
    ensures var k := MatchingEnd(cs, i + 1, j, 0);
      Exec(cs, i, j) == [Progress(i + 1, |cs|)] + Repeat(cs, i, k, Iterations(cs[i].loopCount)) + Exec(cs, k + 1, j)
  {
  }

  /** A stretch opening with any other command: that command, then the rest. */
  lemma ExecPlain(cs: seq<ScriptCommand>, i: nat, j: nat)
    requires i < j <= |cs| && Nested(cs, i, j, 0) && !cs[i].LoopStart?
    ensures !cs[i].LoopEnd? && Nested(cs, i + 1, j, 0)
    ensures Exec(cs, i, j) == [Progress(i + 1, |cs|)] + Effects(cs[i]) + Exec(cs, i + 1, j)
  {
  }

  // ---------------------------------------------------------------------------
  // How often each command runs
  // ---------------------------------------------------------------------------

  /** The number of times a trace reports command `p` (zero-based) as
      running: its `onProgress(p + 1, …)` calls. */
  function Visits(t: seq<Event>, p: nat): nat {
    if |t| == 0 then 0
    else (if t[0].Progress? && t[0].current == p + 1 then 1 else 0) + Visits(t[1..], p)
  }

  lemma {:induction false} VisitsAppend(a: seq<Event>, b: seq<Event>, p: nat)
    ensures Visits(a + b, p) == Visits(a, p) + Visits(b, p)
  {
    if |a| > 0 {
      assert (a + b)[1..] == a[1..] + b;
      VisitsAppend(a[1..], b, p);
    } else {
      assert a + b == b;
    }
  }

  /** A command inside a balanced stretch runs once for every combination
      of passes of the loops around it within the stretch; a command outside
      the stretch does not run at all. */
  lemma {:induction false} ExecVisits(cs: seq<ScriptCommand>, i: nat, j: nat, p: nat)
    requires i <= j <= |cs| && Nested(cs, i, j, 0)
    ensures Visits(Exec(cs, i, j), p) == if i <= p < j then Product(OpenAt(cs, i, p, [])) else 0
    decreases j - i, 1
  {
    if i < j {
      if cs[i].LoopStart? {
        LoopVisits(cs, i, j, p);
      } else {
        PlainVisits(cs, i, j, p);
      }
    }
  }

  lemma {:induction false} PlainVisits(cs: seq<ScriptCommand>, i: nat, j: nat, p: nat)
    requires i < j <= |cs| && Nested(cs, i, j, 0) && !cs[i].LoopStart?
    ensures Visits(Exec(cs, i, j), p) == if i <= p < j then Product(OpenAt(cs, i, p, [])) else 0
    decreases j - i, 0
  {
    var report := [Progress(i + 1, |cs|)];
    var effects := Effects(cs[i]);
    ExecPlain(cs, i, j);
    VisitsAppend(report, effects, p);
    VisitsAppend(report + effects, Exec(cs, i + 1, j), p);
    assert Visits(effects, p) == 0;
    ExecVisits(cs, i + 1, j, p);
    if i < p <= |cs| {
      assert OpenAt(cs, i, p, []) == OpenAt(cs, i + 1, p, []);
    }
  }

  lemma {:induction false} LoopVisits(cs: seq<ScriptCommand>, i: nat, j: nat, p: nat)
    requires i < j <= |cs| && Nested(cs, i, j, 0) && cs[i].LoopStart?
    ensures Visits(Exec(cs, i, j), p) == if i <= p < j then Product(OpenAt(cs, i, p, [])) else 0
    decreases j - i, 0
  {
    var times := Iterations(cs[i].loopCount);
    LoopVisitsSplit(cs, i, j, p);
    var k := MatchingEnd(cs, i + 1, j, 0);
    RepeatVisits(cs, i, k, times, p);
    ExecVisits(cs, k + 1, j, p);
    if i < p <= k {
      OpenInsideLoop(cs, i, p, j);
      ProductAppend([times], OpenAt(cs, i + 1, p, []));
      assert Product([times]) == times;
      if p == k {
        OpenAtBalanced(cs, i + 1, k, 0, []);
      }
    } else if k < p < j {
      OpenAfterLoop(cs, i, p, j);
    }
  }

  /** The reports in a stretch opening with a loop are the `LOOP_START`'s
      own, those of its passes and those of the rest. */
  lemma LoopVisitsSplit(cs: seq<ScriptCommand>, i: nat, j: nat, p: nat)
    requires i < j <= |cs| && Nested(cs, i, j, 0) && cs[i].LoopStart?
    ensures Nested(cs, i + 1, j, 1)
    ensures var k := MatchingEnd(cs, i + 1, j, 0);
      Visits(Exec(cs, i, j), p)
        == (if p == i then 1 else 0)
           + Visits(Repeat(cs, i, k, Iterations(cs[i].loopCount)), p) + Visits(Exec(cs, k + 1, j), p)
  {
    var report := [Progress(i + 1, |cs|)];
    ExecLoop(cs, i, j);
    var k := MatchingEnd(cs, i + 1, j, 0);
    var body := Repeat(cs, i, k, Iterations(cs[i].loopCount));
    VisitsAppend(report, body, p);
    VisitsAppend(report + body, Exec(cs, k + 1, j), p);
  }

  /** Within `times` passes of a loop, a command of its body runs `times`
      times for every run it has in one pass, and its `END` runs once per
      pass. */
  lemma {:induction false} RepeatVisits(cs: seq<ScriptCommand>, i: nat, k: nat, times: nat, p: nat)
    requires i < k < |cs| && Nested(cs, i + 1, k, 0)
    ensures Visits(Repeat(cs, i, k, times), p)
         == times * (if i < p < k then Product(OpenAt(cs, i + 1, p, [])) else if p == k then 1 else 0)
    decreases k - i, times
  {
    if times > 0 {
      var body := Exec(cs, i + 1, k);
      var end := [Progress(k + 1, |cs|)];
      var once := if i < p < k then Product(OpenAt(cs, i + 1, p, [])) else if p == k then 1 else 0;
      VisitsAppend(body, end, p);
      VisitsAppend(body + end, Repeat(cs, i, k, times - 1), p);
      ExecVisits(cs, i + 1, k, p);
      RepeatVisits(cs, i, k, times - 1, p);
      PassesStep(times, once);
    }
  }

  /** The number of times a trace shows command `p` calling `sendCallback`:
      a report of `p` immediately followed by a send. */
  function SendCalls(t: seq<Event>, p: nat): nat {
    if |t| < 2 then 0
    else (if t[0].Progress? && t[0].current == p + 1 && t[1].Transmit? then 1 else 0) + SendCalls(t[1..], p)
  }

  /** No send call straddles a join when the second part starts with a
      report. */
  lemma {:induction false} SendCallsAppend(a: seq<Event>, b: seq<Event>, p: nat)
    requires b == [] || b[0].Progress?
    ensures SendCalls(a + b, p) == SendCalls(a, p) + SendCalls(b, p)
  {
    if |a| == 0 {
      assert a + b == b;
    } else if |a| == 1 {
      if |b| > 0 {
        assert (a + b)[1..] == b;
      } else {
        assert a + b == a;
      }
    } else {
      assert (a + b)[1..] == a[1..] + b;
      SendCallsAppend(a[1..], b, p);
    }
  }

  /** Every stretch and every run of passes opens with a report. */
  lemma OpensWithReport(cs: seq<ScriptCommand>, i: nat, j: nat)
    requires i <= j <= |cs| && Nested(cs, i, j, 0)
    ensures Exec(cs, i, j) == [] <==> i == j
    ensures i < j ==> Exec(cs, i, j)[0] == Progress(i + 1, |cs|)
  {
    if i < j {
      if cs[i].LoopStart? {
        ExecLoop(cs, i, j);
      } else {
        ExecPlain(cs, i, j);
      }
    }
  }

  lemma RepeatOpensWithReport(cs: seq<ScriptCommand>, i: nat, k: nat, times: nat)
    requires i < k < |cs| && Nested(cs, i + 1, k, 0)
    ensures Repeat(cs, i, k, times) == [] || Repeat(cs, i, k, times)[0].Progress?
  {
    if times > 0 {
      OpensWithReport(cs, i + 1, k);
    }
  }

  /** Whether command `p` of `cs` sends something when it runs. */
  predicate Sends(cs: seq<ScriptCommand>, p: nat) {
    p < |cs| && cs[p].Send? && cs[p].value != ""
  }

  /** A `SEND` with a non-empty value inside a balanced stretch calls
      `sendCallback` once for every combination of passes of the loops around
      it within the stretch; every other command never does. */
  lemma {:induction false} ExecSendCalls(cs: seq<ScriptCommand>, i: nat, j: nat, p: nat)
    requires i <= j <= |cs| && Nested(cs, i, j, 0)
    ensures SendCalls(Exec(cs, i, j), p)
         == if i <= p < j && Sends(cs, p) then Product(OpenAt(cs, i, p, [])) else 0
    decreases j - i, 1
  {
    if i < j {
      if cs[i].LoopStart? {
        LoopSendCalls(cs, i, j, p);
      } else {
        PlainSendCalls(cs, i, j, p);
      }
    }
  }

  lemma {:induction false} PlainSendCalls(cs: seq<ScriptCommand>, i: nat, j: nat, p: nat)
    requires i < j <= |cs| && Nested(cs, i, j, 0) && !cs[i].LoopStart?
    ensures SendCalls(Exec(cs, i, j), p)
         == if i <= p < j && Sends(cs, p) then Product(OpenAt(cs, i, p, [])) else 0
    decreases j - i, 0
  {
    var first := [Progress(i + 1, |cs|)] + Effects(cs[i]);
    ExecPlain(cs, i, j);
    OpensWithReport(cs, i + 1, j);
    SendCallsAppend(first, Exec(cs, i + 1, j), p);
    assert SendCalls(first, p) == if i == p && Sends(cs, p) then 1 else 0;
    ExecSendCalls(cs, i + 1, j, p);
    if i < p <= |cs| {
      assert OpenAt(cs, i, p, []) == OpenAt(cs, i + 1, p, []);
    }
  }

  lemma {:induction false} LoopSendCalls(cs: seq<ScriptCommand>, i: nat, j: nat, p: nat)
    requires i < j <= |cs| && Nested(cs, i, j, 0) && cs[i].LoopStart?
    ensures SendCalls(Exec(cs, i, j), p)
         == if i <= p < j && Sends(cs, p) then Product(OpenAt(cs, i, p, [])) else 0
    decreases j - i, 0
  {
    var times := Iterations(cs[i].loopCount);
    LoopSendCallsSplit(cs, i, j, p);
    var k := MatchingEnd(cs, i + 1, j, 0);
    RepeatSendCalls(cs, i, k, times, p);
    ExecSendCalls(cs, k + 1, j, p);
    if i < p < k {
      OpenInsideLoop(cs, i, p, j);
      ProductAppend([times], OpenAt(cs, i + 1, p, []));
      assert Product([times]) == times;
    } else if k < p < j {
      OpenAfterLoop(cs, i, p, j);
    }
  }

  /** The send calls of a stretch opening with a loop are those of its
      passes and those of the rest: the `LOOP_START` sends nothing. */
  lemma LoopSendCallsSplit(cs: seq<ScriptCommand>, i: nat, j: nat, p: nat)
    requires i < j <= |cs| && Nested(cs, i, j, 0) && cs[i].LoopStart?
    ensures Nested(cs, i + 1, j, 1)
    ensures var k := MatchingEnd(cs, i + 1, j, 0);
      SendCalls(Exec(cs, i, j), p)
        == SendCalls(Repeat(cs, i, k, Iterations(cs[i].loopCount)), p) + SendCalls(Exec(cs, k + 1, j), p)
  {
    var report := [Progress(i + 1, |cs|)];
    ExecLoop(cs, i, j);
    var k := MatchingEnd(cs, i + 1, j, 0);
    var body := Repeat(cs, i, k, Iterations(cs[i].loopCount));
    RepeatOpensWithReport(cs, i, k, Iterations(cs[i].loopCount));
    OpensWithReport(cs, k + 1, j);
    SendCallsAppend(report, body, p);
    SendCallsAppend(report + body, Exec(cs, k + 1, j), p);
  }

  lemma {:induction false} RepeatSendCalls(cs: seq<ScriptCommand>, i: nat, k: nat, times: nat, p: nat)
    requires i < k < |cs| && Nested(cs, i + 1, k, 0) && cs[k] == LoopEnd
    ensures SendCalls(Repeat(cs, i, k, times), p)
         == times * (if i < p < k && Sends(cs, p) then Product(OpenAt(cs, i + 1, p, [])) else 0)
    decreases k - i, times
  {
    if times > 0 {
      var once := if i < p < k && Sends(cs, p) then Product(OpenAt(cs, i + 1, p, [])) else 0;
      RepeatSendCallsSplit(cs, i, k, times, p);
      ExecSendCalls(cs, i + 1, k, p);
      RepeatSendCalls(cs, i, k, times - 1, p);
      PassesStep(times, once);
    }
  }

  /** `times` passes of `once` each: the first pass, then the others. */
  lemma PassesStep(times: nat, once: nat)
    requires times > 0
    ensures times * once == once + (times - 1) * once
  {
  }

  /** The send calls of `times` passes are those of the first pass and those
      of the others: the `END` between them sends nothing. */
  lemma RepeatSendCallsSplit(cs: seq<ScriptCommand>, i: nat, k: nat, times: nat, p: nat)
    requires i < k < |cs| && Nested(cs, i + 1, k, 0) && cs[k] == LoopEnd && times > 0
    ensures SendCalls(Repeat(cs, i, k, times), p)
         == SendCalls(Exec(cs, i + 1, k), p) + SendCalls(Repeat(cs, i, k, times - 1), p)
  {
    var body := Exec(cs, i + 1, k);
    var end := [Progress(k + 1, |cs|)];
    var more := Repeat(cs, i, k, times - 1);
    RepeatOpensWithReport(cs, i, k, times - 1);
    SendCallsAppend(body, end, p);
    SendCallsAppend(body + end, more, p);
  }

  // ---------------------------------------------------------------------------
  // The executor under the quiet environment produces these traces
  // ---------------------------------------------------------------------------

  /** Run from `from` after `steps` steps, the quiet executor makes the
      events `t` and arrives at `to`, or hits the step cap on the way. */
  predicate Continues(cs: seq<ScriptCommand>, t: seq<Event>, from: Machine, to: Machine, steps: nat)
    requires steps <= MaxSteps
  {
    && (steps + StepsIn(t) <= MaxSteps ==>
          Run(cs, Quiet(), from, steps) == Then(t, Run(cs, Quiet(), to, steps + StepsIn(t))))
    && (steps + StepsIn(t) > MaxSteps ==> Run(cs, Quiet(), from, steps).outcome == Runaway)
  }

  lemma ContinuesNowhere(cs: seq<ScriptCommand>, m: Machine, steps: nat)
    requires steps <= MaxSteps
    ensures Continues(cs, [], m, m, steps)
  {
    assert [] + Run(cs, Quiet(), m, steps).trace == Run(cs, Quiet(), m, steps).trace;
  }

  lemma ThenThen(t1: seq<Event>, t2: seq<Event>, r: Execution)
    ensures Then(t1, Then(t2, r)) == Then(t1 + t2, r)
  {
    assert t1 + (t2 + r.trace) == t1 + t2 + r.trace;
  }

  /** Two stretches of a run in a row are one. */
  lemma ContinuesThen(cs: seq<ScriptCommand>, t1: seq<Event>, t2: seq<Event>,
                      m1: Machine, m2: Machine, m3: Machine, steps: nat)
    requires steps <= MaxSteps
    requires Continues(cs, t1, m1, m2, steps)
    requires steps + StepsIn(t1) <= MaxSteps ==> Continues(cs, t2, m2, m3, steps + StepsIn(t1))
    ensures Continues(cs, t1 + t2, m1, m3, steps)
  {
    StepsInAppend(t1, t2);
    var n := steps + StepsIn(t1) + StepsIn(t2);
    if n <= MaxSteps {
      ThenThen(t1, t2, Run(cs, Quiet(), m3, n));
    }
  }

  /** `ContinuesThen` for a trace already known to be the concatenation. */
  lemma ContinuesJoin(cs: seq<ScriptCommand>, t: seq<Event>, t1: seq<Event>, t2: seq<Event>,
                      m1: Machine, m2: Machine, m3: Machine, steps: nat)
    requires steps <= MaxSteps && t == t1 + t2
    requires Continues(cs, t1, m1, m2, steps)
    requires steps + StepsIn(t1) <= MaxSteps ==> Continues(cs, t2, m2, m3, steps + StepsIn(t1))
    ensures Continues(cs, t, m1, m3, steps)
  {
    ContinuesThen(cs, t1, t2, m1, m2, m3, steps);
  }

  /** One step of the quiet executor. */
  lemma ContinuesStep(cs: seq<ScriptCommand>, m: Machine, es: seq<Event>, next: Machine, steps: nat)
    requires steps <= MaxSteps && m.index < |cs|
    requires Step(cs[m.index], m, true) == Next(es, next)
    ensures Continues(cs, [Progress(m.index + 1, |cs|)] + es, m, next, steps)
  {
    StepEvents(cs, m, true);
  }

  /** A command other than a loop boundary steps to the next index with its
      effects. */
  lemma PlainStep(c: ScriptCommand, m: Machine)
    requires !c.LoopStart? && !c.LoopEnd?
    ensures Step(c, m, true) == Next(Effects(c), Machine(m.index + 1, m.stack))
  {
  }

  /** A balanced stretch runs as `Exec` says, whatever loops are open
      around it. */
  lemma {:induction false} SegmentRuns(cs: seq<ScriptCommand>, i: nat, j: nat, stack: Stack, steps: nat)
    requires i <= j <= |cs| && Nested(cs, i, j, 0) && steps <= MaxSteps
    ensures Continues(cs, Exec(cs, i, j), Machine(i, stack), Machine(j, stack), steps)
    decreases j - i, 3
  {
    if i == j {
      ContinuesNowhere(cs, Machine(i, stack), steps);
    } else if cs[i].LoopStart? {
      LoopSegmentRuns(cs, i, j, stack, steps);
    } else {
      PlainSegmentRuns(cs, i, j, stack, steps);
    }
  }

  /** The step of a command other than a loop boundary. */
  lemma PlainStepRuns(cs: seq<ScriptCommand>, i: nat, stack: Stack, steps: nat)
    requires i < |cs| && !cs[i].LoopStart? && !cs[i].LoopEnd? && steps <= MaxSteps
    ensures StepsIn([Progress(i + 1, |cs|)] + Effects(cs[i])) == 1
    ensures Continues(cs, [Progress(i + 1, |cs|)] + Effects(cs[i]), Machine(i, stack), Machine(i + 1, stack), steps)
  {
    var here := Machine(i, stack);
    PlainStep(cs[i], here);
    ContinuesStep(cs, here, Effects(cs[i]), Machine(i + 1, stack), steps);
    StepEvents(cs, here, true);
  }

  /** A stretch starting with a command other than a loop boundary: that
      step, then the rest of the stretch. */
  lemma {:induction false} PlainSegmentRuns(cs: seq<ScriptCommand>, i: nat, j: nat, stack: Stack, steps: nat)
    requires i < j <= |cs| && Nested(cs, i, j, 0) && steps <= MaxSteps
    requires !cs[i].LoopStart?
    ensures Continues(cs, Exec(cs, i, j), Machine(i, stack), Machine(j, stack), steps)
    decreases j - i, 2
  {
    var first := [Progress(i + 1, |cs|)] + Effects(cs[i]);
    ExecPlain(cs, i, j);
    PlainStepRuns(cs, i, stack, steps);
    if steps + 1 <= MaxSteps {
      SegmentRuns(cs, i + 1, j, stack, steps + 1);
    }
    ContinuesJoin(cs, Exec(cs, i, j), first, Exec(cs, i + 1, j),
                  Machine(i, stack), Machine(i + 1, stack), Machine(j, stack), steps);
  }

  /** The `LOOP_START` step pushes a fresh frame for the loop. */
  lemma LoopStartStep(cs: seq<ScriptCommand>, i: nat, stack: Stack, steps: nat)
    requires i < |cs| && cs[i].LoopStart? && steps <= MaxSteps
    ensures StepsIn([Progress(i + 1, |cs|)]) == 1
    ensures Continues(cs, [Progress(i + 1, |cs|)], Machine(i, stack),
                      Machine(i + 1, Push(stack, Frame(i, LoopCount(cs[i].loopCount), 0))), steps)
  {
    var here := Machine(i, stack);
    var inside := Machine(i + 1, Push(stack, Frame(i, LoopCount(cs[i].loopCount), 0)));
    assert Step(cs[i], here, true) == Next([], inside);
    ContinuesStep(cs, here, [], inside, steps);
    assert [Progress(i + 1, |cs|)] + [] == [Progress(i + 1, |cs|)];
  }

  /** Where the `END` of the loop opened at `i` goes: back to the first
      command of the body while passes remain, past the `END` otherwise. */
  function AfterEnd(i: nat, k: nat, stack: Stack, count: int, current: nat): Machine
  {
    if current + 1 < count then Machine(i + 1, Push(stack, Frame(i, count, current + 1)))
    else Machine(k + 1, stack)
  }

  /** The `END` step of a loop with an open frame. */
  lemma LoopEndStep(cs: seq<ScriptCommand>, i: nat, k: nat, stack: Stack, count: int, current: nat, steps: nat)
    requires k < |cs| && cs[k] == LoopEnd && steps <= MaxSteps
    ensures Continues(cs, [Progress(k + 1, |cs|)], Machine(k, Push(stack, Frame(i, count, current))),
                      AfterEnd(i, k, stack, count, current), steps)
  {
    var atEnd := Machine(k, Push(stack, Frame(i, count, current)));
    var next := AfterEnd(i, k, stack, count, current);
    assert Step(cs[k], atEnd, true) == Next([], next);
    ContinuesStep(cs, atEnd, [], next, steps);
    assert [Progress(k + 1, |cs|)] + [] == [Progress(k + 1, |cs|)];
  }

  /** A stretch starting with a loop: the `LOOP_START` step, every pass of
      the loop, then the rest of the stretch. */
  lemma {:induction false} LoopSegmentRuns(cs: seq<ScriptCommand>, i: nat, j: nat, stack: Stack, steps: nat)
    requires i < j <= |cs| && Nested(cs, i, j, 0) && steps <= MaxSteps
    requires cs[i].LoopStart?
    ensures Continues(cs, Exec(cs, i, j), Machine(i, stack), Machine(j, stack), steps)
    decreases j - i, 2
  {
    var n := cs[i].loopCount;
    var report := [Progress(i + 1, |cs|)];
    ExecLoop(cs, i, j);
    var k := MatchingEnd(cs, i + 1, j, 0);
    var inside := Machine(i + 1, Push(stack, Frame(i, LoopCount(n), 0)));
    var passes := Repeat(cs, i, k, Iterations(n)) + Exec(cs, k + 1, j);
    LoopStartStep(cs, i, stack, steps);
    if steps + 1 <= MaxSteps {
      PassesThenRest(cs, i, k, j, stack, steps + 1);
    }
    assert Exec(cs, i, j) == report + passes;
    ContinuesJoin(cs, Exec(cs, i, j), report, passes, Machine(i, stack), inside, Machine(j, stack), steps);
  }

  /** From just inside a fresh loop frame: every pass of the loop, then the
      stretch after its `END`. */
  lemma {:induction false} PassesThenRest(cs: seq<ScriptCommand>, i: nat, k: nat, j: nat, stack: Stack, steps: nat)
    requires i < k < j <= |cs| && cs[i].LoopStart? && cs[k] == LoopEnd
    requires Nested(cs, i + 1, k, 0) && Nested(cs, k + 1, j, 0) && steps <= MaxSteps
    ensures Continues(cs, Repeat(cs, i, k, Iterations(cs[i].loopCount)) + Exec(cs, k + 1, j),
                      Machine(i + 1, Push(stack, Frame(i, LoopCount(cs[i].loopCount), 0))),
                      Machine(j, stack), steps)
    decreases j - i, 1
  {
    var n := cs[i].loopCount;
    var body := Repeat(cs, i, k, Iterations(n));
    assert Remaining(LoopCount(n), 0) == Iterations(n);
    LoopRuns(cs, i, k, stack, LoopCount(n), 0, steps);
    if steps + StepsIn(body) <= MaxSteps {
      SegmentRuns(cs, k + 1, j, stack, steps + StepsIn(body));
    }
    ContinuesThen(cs, body, Exec(cs, k + 1, j), Machine(i + 1, Push(stack, Frame(i, LoopCount(n), 0))),
                  Machine(k + 1, stack), Machine(j, stack), steps);
  }

  /** One pass of a loop body followed by its `END` step. */
  lemma {:induction false} OnePass(cs: seq<ScriptCommand>, i: nat, k: nat, stack: Stack,
                                   count: int, current: nat, steps: nat)
    requires i < k < |cs| && cs[k] == LoopEnd && Nested(cs, i + 1, k, 0) && steps <= MaxSteps
    ensures Continues(cs, Exec(cs, i + 1, k) + [Progress(k + 1, |cs|)],
                      Machine(i + 1, Push(stack, Frame(i, count, current))),
                      AfterEnd(i, k, stack, count, current), steps)
    decreases k - i, 0
  {
    var open := Push(stack, Frame(i, count, current));
    var body := Exec(cs, i + 1, k);
    SegmentRuns(cs, i + 1, k, open, steps);
    if steps + StepsIn(body) <= MaxSteps {
      LoopEndStep(cs, i, k, stack, count, current, steps + StepsIn(body));
    }
    ContinuesThen(cs, body, [Progress(k + 1, |cs|)], Machine(i + 1, open), Machine(k, open),
                  AfterEnd(i, k, stack, count, current), steps);
  }

  /** The rest of a loop whose frame has `current` passes finished: the
      remaining passes, then the command after its `END` with the frame
      gone. */
  lemma {:induction false} LoopRuns(cs: seq<ScriptCommand>, i: nat, k: nat, stack: Stack,
                                    count: int, current: nat, steps: nat)
    requires i < k < |cs| && cs[k] == LoopEnd && Nested(cs, i + 1, k, 0) && steps <= MaxSteps
    ensures Continues(cs, Repeat(cs, i, k, Remaining(count, current)),
                      Machine(i + 1, Push(stack, Frame(i, count, current))), Machine(k + 1, stack), steps)
    decreases k - i, Remaining(count, current)
  {
    var times := Remaining(count, current);
    var pass := Exec(cs, i + 1, k) + [Progress(k + 1, |cs|)];
    var more := Repeat(cs, i, k, times - 1);
    OnePass(cs, i, k, stack, count, current, steps);
    assert Repeat(cs, i, k, times) == pass + more;
    if current + 1 < count {
      assert times - 1 == Remaining(count, current + 1);
      if steps + StepsIn(pass) <= MaxSteps {
        LoopRuns(cs, i, k, stack, count, current + 1, steps + StepsIn(pass));
      }
      ContinuesThen(cs, pass, more, Machine(i + 1, Push(stack, Frame(i, count, current))),
                    AfterEnd(i, k, stack, count, current), Machine(k + 1, stack), steps);
    } else {
      assert more == [] && pass + more == pass;
    }
  }

  /** `executeScript` on a non-empty balanced list under the quiet
      environment: the structured trace and a normal end, or the step cap
      when that trace takes more than `MaxSteps` steps. */
  lemma ExecuteQuiet(cs: seq<ScriptCommand>)
    requires |cs| > 0 && Balanced(cs)
    ensures Nested(cs, 0, |cs|, 0)
    ensures var t := Exec(cs, 0, |cs|);
      && (StepsIn(t) <= MaxSteps ==> Execute(cs, Quiet()) == Execution(t, Completed))
      && (StepsIn(t) > MaxSteps ==> Execute(cs, Quiet()).outcome == Runaway)
  {
    NestedIsCloses(cs, 0, |cs|, 0);
    assert cs[0..|cs|] == cs;
    SegmentRuns(cs, 0, |cs|, Empty, 0);
    var t := Exec(cs, 0, |cs|);
    if StepsIn(t) <= MaxSteps {
      assert t + [] == t;
    }
  }

  /** Under any environment, a non-empty balanced list ends normally, at the
      step cap, or where the environment cut it short: never on an `END`
      without a loop or with a loop left open. A normal end makes exactly the
      structured trace. */
  lemma BalancedOutcomes(cs: seq<ScriptCommand>, env: Env)
    requires |cs| > 0 && Balanced(cs)
    ensures Nested(cs, 0, |cs|, 0)
    ensures var o := Execute(cs, env).outcome;
      o == Completed || o == Runaway || CutShort(o)
    ensures Execute(cs, env).outcome == Completed ==>
      Execute(cs, env) == Execution(Exec(cs, 0, |cs|), Completed)
  {
    ExecuteQuiet(cs);
    ExecutePrefixOfQuiet(cs, env);
  }

  /** In a run of a balanced list that ends normally, command `p` runs once
      for every combination of passes of the loops enclosing it: the product
      of their iteration counts. */
  lemma ExecuteVisits(cs: seq<ScriptCommand>, env: Env, p: nat)
    requires |cs| > 0 && Balanced(cs) && p < |cs|
    ensures Execute(cs, env).outcome == Completed ==>
      Visits(Execute(cs, env).trace, p) == Product(OpenAt(cs, 0, p, []))
  {
    BalancedOutcomes(cs, env);
    ExecVisits(cs, 0, |cs|, p);
  }

  /** In a run of a balanced list that ends normally, a `SEND` with a
      non-empty value calls `sendCallback` once for every combination of
      passes of the loops enclosing it, and any other command never does. */
  lemma ExecuteSendCalls(cs: seq<ScriptCommand>, env: Env, p: nat)
    requires |cs| > 0 && Balanced(cs) && p < |cs|
    ensures Execute(cs, env).outcome == Completed ==>
      SendCalls(Execute(cs, env).trace, p) == if Sends(cs, p) then Product(OpenAt(cs, 0, p, [])) else 0
  {
    BalancedOutcomes(cs, env);
    ExecSendCalls(cs, 0, |cs|, p);
  }
}
