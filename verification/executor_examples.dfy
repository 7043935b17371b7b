/** Small runs of `executeScript`, worked out from the definitions. */
module ExecutorExamples {
  import opened ScriptCommands
  import opened ScriptExecutor
  import opened ReferenceRun

  /** An `END` with no loop open throws at its index after reporting it. */
  lemma StrayEnd(env: Env)
    requires 0 !in env.stops
    ensures Execute([LoopEnd], env) == Execution([Progress(1, 1)], StepFailed(0, EndWithoutLoop))
  {
    var m := Machine(0, Empty);
    assert Step(LoopEnd, m, 0 !in env.failures) == Fail([], EndWithoutLoop);
    assert [Progress(1, 1)] + [] == [Progress(1, 1)];
  }

  /** A loop that is never closed leaves its frame on the stack when the
      program counter runs off the end. */
  lemma OpenLoop(n: int, env: Env)
    requires 0 !in env.stops
    ensures Execute([LoopStart(n)], env) == Execution([Progress(1, 1)], UnfinishedLoop)
  {
    var m := Machine(0, Empty);
    var inside := Machine(1, Push(Empty, Frame(0, LoopCount(n), 0)));
    assert Step(LoopStart(n), m, 0 !in env.failures) == Next([], inside);
    assert Run([LoopStart(n)], env, inside, 1) == Execution([], UnfinishedLoop);
    assert [Progress(1, 1)] + [] + [] == [Progress(1, 1)];
  }

  /** `LOOP 3` / `SEND AT` / `END` takes seven steps, the `END` running three
      times, and sends three times. */
  lemma LoopThreeSends()
    ensures var cs := [LoopStart(3), Send("AT"), LoopEnd];
      var pass := [Progress(2, 3), Transmit("AT"), Progress(3, 3)];
      Execute(cs, Quiet()) == Execution([Progress(1, 3)] + pass + pass + pass, Completed)
  {
    var cs := [LoopStart(3), Send("AT"), LoopEnd];
    var pass := [Progress(2, 3), Transmit("AT"), Progress(3, 3)];
    assert Closes(cs, 0) by {
      assert cs[1..] == [Send("AT"), LoopEnd] && cs[1..][1..] == [LoopEnd] && cs[1..][1..][1..] == [];
    }
    ExecuteQuiet(cs);
    assert MatchingEnd(cs, 1, 3, 0) == 2;
    assert Exec(cs, 1, 2) == [Progress(2, 3), Transmit("AT")];
    assert Exec(cs, 3, 3) == [];
    var body := Repeat(cs, 0, 2, 3);
    assert Repeat(cs, 0, 2, 0) == [];
    assert Repeat(cs, 0, 2, 1) == pass;
    assert Repeat(cs, 0, 2, 2) == pass + pass;
    assert body == pass + pass + pass;
    assert Exec(cs, 0, 3) == [Progress(1, 3)] + body + [];
    StepsInAppend([Progress(1, 3)] + pass + pass, pass);
    StepsInAppend([Progress(1, 3)] + pass, pass);
    StepsInAppend([Progress(1, 3)], pass);
    assert StepsIn(pass) == 2;
  }
}
