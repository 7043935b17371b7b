/** `executeScript` of lib/scriptParser.ts: a program counter over the
    command list with a stack of loop frames, a stop check and a step cap.
    The callbacks become data: the stop flag and the outcome of each send are
    answers the environment gives per step, and what the script does to the
    outside (progress reports, sends, waits) is the trace of events. */
module ScriptExecutor {
  import opened Wrappers
  import opened JsText
  import opened ScriptCommands

  /** `maxIterations`: the most steps a run may take. */
  const MaxSteps := 1000000

  /** The world the executor talks to, asked by step number (0-based): the
      steps before which `shouldStop()` is true, and the steps whose send
      rejects. An absent `shouldStop` is an empty `stops`. */
  datatype Env = Env(stops: set<nat>, failures: set<nat>)

  /** Never stops, every send resolves. */
  function Quiet(): Env {
    Env({}, {})
  }

  /** What a step does to the outside: `onProgress(current, total)`, a call
      of `sendCallback(data)`, or a timer set from a `DELAY` value. */
  datatype Event =
    | Progress(current: nat, total: nat)
    | Transmit(data: string)
    | Wait(value: string)

  /** The timer's length in milliseconds for a `Wait`: `parseInt` of the
      value, `None` standing for `NaN` (which the timer treats as 0). */
  function WaitLength(e: Event): Option<int>
    requires e.Wait?
  {
    ParseInt(e.value, 0)
  }

  /** A `DELAY` holding the decimal rendering the parser stores for `n` sets
      one timer, and that timer runs for `n` milliseconds. */
  lemma DelayStepWaits(n: nat, m: Machine, sent: bool)
    ensures Step(Delay(NatToDecimal(n)), m, sent) == Next([Wait(NatToDecimal(n))], m.(index := m.index + 1))
    ensures WaitLength(Wait(NatToDecimal(n))) == Some(n)
  {
    ParseIntDecimal(n);
  }

  /** One open loop: the index of its `LOOP_START`, the count pushed, and the
      passes finished. */
  datatype Frame = Frame(startIndex: nat, count: int, current: nat)

  /** The loop stack: `Push(below, top)` is `below` after `stack.push(top)`. */
  datatype Stack = Empty | Push(below: Stack, top: Frame)

  /** The program counter and the loop stack. */
  datatype Machine = Machine(index: nat, stack: Stack)

  /** Why a step throws (the run reports the index it was at). */
  datatype StepError = SendFailed | EndWithoutLoop

  /** How a run ends: normally, or by one of the executor's throws. */
  datatype Outcome =
    | Completed
    | NoCommands                             // empty command list
    | Cancelled                              // `shouldStop()` was true
    | Runaway                                // more than `MaxSteps` steps
    | StepFailed(index: nat, cause: StepError)
    | UnfinishedLoop                         // loop frames left at the end

  datatype Execution = Execution(trace: seq<Event>, outcome: Outcome)

  /** One step's effect: the events it makes and the next machine, or the
      events it made before it threw. */
  datatype StepResult =
    | Next(effects: seq<Event>, next: Machine)
    | Fail(effects: seq<Event>, cause: StepError)

  /** The `switch` on the command at the program counter; `sent` is whether
      the send this step makes (if any) resolves. */
  function Step(c: ScriptCommand, m: Machine, sent: bool): StepResult
  {
    var advance := m.(index := m.index + 1);
    match c
    case Send(v) =>
      if v == "" then Next([], advance)
      else if sent then Next([Transmit(v)], advance)
      else Fail([Transmit(v)], SendFailed)
    case Delay(v) =>
      Next(if v == "" then [] else [Wait(v)], advance)
    case LoopStart(n) =>
      Next([], Machine(m.index + 1, Push(m.stack, Frame(m.index, LoopCount(n), 0))))
    case LoopEnd =>
      match m.stack
      case Empty => Fail([], EndWithoutLoop)
      case Push(below, top) =>
        if top.current + 1 < top.count then
          Next([], Machine(top.startIndex + 1, Push(below, top.(current := top.current + 1))))
        else
          Next([], Machine(m.index + 1, below))
  }

  /** What a step does: it throws exactly for a send that rejects and for
      an `END` with no loop open; `LOOP_START` pushes a fresh frame, `END`
      either jumps back behind its loop's start with one more pass counted or
      pops the frame, and everything else moves on by one; only a non-empty
      `SEND` or `DELAY` value reaches the outside. */
  lemma StepShape(c: ScriptCommand, m: Machine, sent: bool)
    ensures var r := Step(c, m, sent);
      && (r.Fail? <==> (c.Send? && c.value != "" && !sent) || (c.LoopEnd? && m.stack.Empty?))
      && (r.Next? && !c.LoopEnd? ==> r.next.index == m.index + 1)
      && (r.Next? && c.LoopStart? ==> r.next.stack == Push(m.stack, Frame(m.index, LoopCount(c.loopCount), 0)))
      && (r.Next? && (c.Send? || c.Delay?) ==> r.next.stack == m.stack)
      && (r.Next? && c.LoopEnd? ==>
            var top := m.stack.top;
            if top.current + 1 < top.count
            then r.next == Machine(top.startIndex + 1, Push(m.stack.below, Frame(top.startIndex, top.count, top.current + 1)))
            else r.next == Machine(m.index + 1, m.stack.below))
      && (c.Send? ==> r.effects == if c.value == "" then [] else [Transmit(c.value)])
      && (c.Delay? ==> r.effects == if c.value == "" then [] else [Wait(c.value)])
      && (c.LoopStart? || c.LoopEnd? ==> r.effects == [])
  {
  }

  /** The number of steps a trace records: one `Progress` event each. */
  function StepsIn(trace: seq<Event>): nat {
    if |trace| == 0 then 0
    else (if trace[0].Progress? then 1 else 0) + StepsIn(trace[1..])
  }

  lemma {:induction false} StepsInAppend(a: seq<Event>, b: seq<Event>)
    ensures StepsIn(a + b) == StepsIn(a) + StepsIn(b)
  {
    if |a| > 0 {
      assert (a + b)[1..] == a[1..] + b;
      StepsInAppend(a[1..], b);
    } else {
      assert a + b == b;
    }
  }

  /** Every progress report names a command of the list and its length. */
  predicate ReportsIn(trace: seq<Event>, n: nat) {
    forall k :: 0 <= k < |trace| && trace[k].Progress? ==> 1 <= trace[k].current <= n && trace[k].total == n
  }

  /** Every send carries the non-empty value of a `SEND` command of the list. */
  predicate SendsFrom(trace: seq<Event>, cs: seq<ScriptCommand>) {
    forall k :: 0 <= k < |trace| && trace[k].Transmit? ==> trace[k].data != "" && Send(trace[k].data) in cs
  }

  /** The trace facts survive concatenation. */
  lemma TraceAppend(a: seq<Event>, b: seq<Event>, cs: seq<ScriptCommand>)
    requires ReportsIn(a, |cs|) && SendsFrom(a, cs)
    requires ReportsIn(b, |cs|) && SendsFrom(b, cs)
    ensures ReportsIn(a + b, |cs|) && SendsFrom(a + b, cs)
    ensures StepsIn(a + b) == StepsIn(a) + StepsIn(b)
  {
    StepsInAppend(a, b);
    forall k | 0 <= k < |a + b|
      ensures (a + b)[k] == if k < |a| then a[k] else b[k - |a|]
    {
    }
  }

  /** A step's events: one progress report for the command at the program
      counter, then its effects. */
  lemma StepEvents(cs: seq<ScriptCommand>, m: Machine, sent: bool)
    requires m.index < |cs|
    ensures var es := [Progress(m.index + 1, |cs|)] + Step(cs[m.index], m, sent).effects;
      ReportsIn(es, |cs|) && SendsFrom(es, cs) && StepsIn(es) == 1
  {
    var c := cs[m.index];
    var report := [Progress(m.index + 1, |cs|)];
    var effects := Step(c, m, sent).effects;
    assert StepsIn(report) == 1;
    assert StepsIn(effects) == 0 by {
      if |effects| > 0 {
        assert effects[1..] == [];
      }
    }
    StepsInAppend(report, effects);
  }

  /** Events before a run's own. */
  function Then(events: seq<Event>, e: Execution): Execution {
    Execution(events + e.trace, e.outcome)
  }

  /** The `while` loop from machine `m` after `steps` steps. */
  function Run(cs: seq<ScriptCommand>, env: Env, m: Machine, steps: nat): (r: Execution)
    requires steps <= MaxSteps
    ensures r.outcome.StepFailed? ==> r.outcome.index < |cs|
    ensures r.outcome != NoCommands
    decreases MaxSteps - steps
  {
    if m.index >= |cs| then
      Execution([], if m.stack.Push? then UnfinishedLoop else Completed)
    else if steps in env.stops then
      Execution([], Cancelled)
    else if steps == MaxSteps then
      Execution([], Runaway)
    else
      var report := [Progress(m.index + 1, |cs|)];
      match Step(cs[m.index], m, steps !in env.failures)
      case Fail(es, cause) =>
        Execution(report + es, StepFailed(m.index, cause))
      case Next(es, m') =>
        var rest := Run(cs, env, m', steps + 1);
        Execution(report + es + rest.trace, rest.outcome)
  }

  /** A run takes at most the steps left under the cap, hits the cap
      exactly when it ends as a runaway, takes no step the stop flag is
      raised for, and is cancelled only at the first such step. */
  lemma {:induction false} RunSteps(cs: seq<ScriptCommand>, env: Env, m: Machine, steps: nat)
    requires steps <= MaxSteps
    ensures var r := Run(cs, env, m, steps);
      && StepsIn(r.trace) <= MaxSteps - steps
      && (r.outcome == Runaway ==> steps + StepsIn(r.trace) == MaxSteps)
      && (r.outcome == Cancelled ==> steps + StepsIn(r.trace) in env.stops)
      && (forall s :: steps <= s < steps + StepsIn(r.trace) ==> s !in env.stops)
    decreases MaxSteps - steps
  {
    if m.index < |cs| && steps !in env.stops && steps < MaxSteps {
      var report := [Progress(m.index + 1, |cs|)];
      StepEvents(cs, m, steps !in env.failures);
      match Step(cs[m.index], m, steps !in env.failures)
      case Fail(es, cause) =>
        assert Run(cs, env, m, steps).trace == report + es;
      case Next(es, m') =>
        var rest := Run(cs, env, m', steps + 1);
        assert Run(cs, env, m, steps) == Then(report + es, rest);
        RunSteps(cs, env, m', steps + 1);
        StepsInAppend(report + es, rest.trace);
    }
  }

  /** Every event of a run is a report on a command of the list or a send of
      one of its `SEND` values. */
  lemma {:induction false} RunEvents(cs: seq<ScriptCommand>, env: Env, m: Machine, steps: nat)
    requires steps <= MaxSteps
    ensures ReportsIn(Run(cs, env, m, steps).trace, |cs|)
    ensures SendsFrom(Run(cs, env, m, steps).trace, cs)
    decreases MaxSteps - steps
  {
    if m.index < |cs| && steps !in env.stops && steps < MaxSteps {
      var report := [Progress(m.index + 1, |cs|)];
      StepEvents(cs, m, steps !in env.failures);
      match Step(cs[m.index], m, steps !in env.failures)
      case Fail(es, cause) =>
        assert Run(cs, env, m, steps).trace == report + es;
      case Next(es, m') =>
        var rest := Run(cs, env, m', steps + 1).trace;
        assert Run(cs, env, m, steps).trace == report + es + rest;
        RunEvents(cs, env, m', steps + 1);
        TraceAppend(report + es, rest, cs);
    }
  }

  /** `executeScript`: an empty list throws at once; otherwise the loop runs
      from the first command with no loop open. */
  function Execute(cs: seq<ScriptCommand>, env: Env): (r: Execution)
    ensures r.outcome == NoCommands <==> |cs| == 0
    ensures |cs| == 0 ==> r.trace == []
  {
    if |cs| == 0 then Execution([], NoCommands)
    else Run(cs, env, Machine(0, Empty), 0)
  }

  // ---------------------------------------------------------------------------
  // Any environment against the quiet one
  // ---------------------------------------------------------------------------

  /** A step that goes on does the same whether or not its send resolves. */
  lemma StepSent(c: ScriptCommand, m: Machine, sent: bool)
    ensures Step(c, m, sent).Next? ==> Step(c, m, true) == Step(c, m, sent)
    ensures Step(c, m, sent).Fail? && Step(c, m, true).Next? ==>
              Step(c, m, sent).effects == Step(c, m, true).effects && Step(c, m, sent).cause == SendFailed
  {
  }

  /** The ends an environment can force: a stop, or a send that fails. */
  predicate CutShort(o: Outcome) {
    o == Cancelled || (o.StepFailed? && o.cause == SendFailed)
  }

  /** `a` is `b`, or a prefix of it that the environment cut short. */
  predicate Follows(a: Execution, b: Execution) {
    a == b || (CutShort(a.outcome) && a.trace <= b.trace)
  }

  lemma FollowsThen(events: seq<Event>, a: Execution, b: Execution)
    requires Follows(a, b)
    ensures Follows(Then(events, a), Then(events, b))
  {
    if a != b {
      assert events + a.trace <= events + b.trace;
    }
  }

  /** The stop flag and failed sends only cut a run short: whatever the
      environment, a run does what the quiet run does, or does a prefix of
      it and then ends cancelled or with a failed send. */
  lemma {:induction false} RunPrefixOfQuiet(cs: seq<ScriptCommand>, env: Env, m: Machine, steps: nat)
    requires steps <= MaxSteps
    ensures Follows(Run(cs, env, m, steps), Run(cs, Quiet(), m, steps))
    decreases MaxSteps - steps
  {
    if m.index < |cs| && steps !in env.stops && steps < MaxSteps {
      var report := [Progress(m.index + 1, |cs|)];
      var sent := steps !in env.failures;
      StepSent(cs[m.index], m, sent);
      match Step(cs[m.index], m, sent)
      case Fail(es, cause) =>
        if Step(cs[m.index], m, true).Next? {
          var rest := Run(cs, Quiet(), Step(cs[m.index], m, true).next, steps + 1);
          assert Run(cs, Quiet(), m, steps).trace == report + es + rest.trace;
          assert Run(cs, env, m, steps).trace == report + es;
        }
      case Next(es, m') =>
        RunPrefixOfQuiet(cs, env, m', steps + 1);
        var a' := Run(cs, env, m', steps + 1);
        var b' := Run(cs, Quiet(), m', steps + 1);
        assert Run(cs, env, m, steps) == Then(report + es, a');
        assert Run(cs, Quiet(), m, steps) == Then(report + es, b');
        FollowsThen(report + es, a', b');
    }
  }

  /** `executeScript` against any environment, compared with the quiet one. */
  lemma ExecutePrefixOfQuiet(cs: seq<ScriptCommand>, env: Env)
    ensures Follows(Execute(cs, env), Execute(cs, Quiet()))
  {
    if |cs| > 0 {
      RunPrefixOfQuiet(cs, env, Machine(0, Empty), 0);
    }
  }
}
