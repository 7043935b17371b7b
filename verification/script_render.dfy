/** The inverse of `parseScript`: every command list the parser can produce
    is written back as script text that parses to that same list. */
module ScriptRender {
  import opened Wrappers
  import opened JsText
  import opened ScriptCommands
  import opened ScriptParser

  /** One command as a script line: `SEND "v"`, `DELAY n`, `LOOP n`, `END`. */
  function RenderCommand(c: ScriptCommand): string {
    match c
    case Send(v) => "SEND \"" + v + "\""
    case Delay(v) => "DELAY " + v
    case LoopStart(n) => "LOOP " + (if n < 0 then "-" + NatToDecimal(-n) else NatToDecimal(n))
    case LoopEnd => "END"
  }

  /** One line per command, in order. */
  function RenderLines(cs: seq<ScriptCommand>): (r: seq<string>)
    ensures |r| == |cs|
    ensures forall k :: 0 <= k < |r| ==> r[k] == RenderCommand(cs[k])
  {
    if |cs| == 0 then [] else [RenderCommand(cs[0])] + RenderLines(cs[1..])
  }

  /** A command list as a script, one line per command. */
  function Render(cs: seq<ScriptCommand>): string {
    Join(RenderLines(cs))
  }

  /** A decimal rendering read after a keyword: trimming leaves it alone and
      `parseInt` gives back the number. */
  lemma DecimalArgument(n: nat)
    ensures Trim(NatToDecimal(n)) == NatToDecimal(n)
    ensures ParseInt(Trim(NatToDecimal(n)), 0) == Some(n)
  {
    var s := NatToDecimal(n);
    TrimUnchanged(s);
    ParseIntDecimal(n);
  }

  /** What a rendered line has to be for the parser to read it back. */
  predicate ReadsAs(line: string, c: ScriptCommand) {
    && '\n' !in line
    && Trim(line) == line
    && IsSignificant(line)
    && ParseLine(line, 1) == Success(c)
  }

  /** A line made of a keyword and an argument, neither with a line feed,
      the keyword starting with a letter and the argument ending in a
      non-whitespace character: one significant line, its own trim. */
  lemma KeywordLine(keyword: string, arg: string)
    requires |keyword| > 0 && 'A' <= keyword[0] <= 'Z' && '\n' !in keyword
    requires |arg| > 0 && !IsWhitespace(arg[|arg| - 1]) && '\n' !in arg
    ensures var line := keyword + arg;
      && '\n' !in line
      && Trim(line) == line
      && IsSignificant(line)
      && StartsWith(line, keyword)
      && line[|keyword|..] == arg
  {
    var line := keyword + arg;
    assert line[0] == keyword[0] && line[|line| - 1] == arg[|arg| - 1];
    TrimUnchanged(line);
    assert line[..|keyword|] == keyword;
  }

  lemma SendLineReads(v: string)
    requires '\n' !in v
    ensures ReadsAs(RenderCommand(Send(v)), Send(v))
  {
    var q := ['"'] + v + ['"'];
    var line := RenderCommand(Send(v));
    assert line == "SEND " + q;
    KeywordLine("SEND ", q);
    TrimUnchanged(q);
    StripQuotesWrapped('"', v, '"');
    ParseSendLine(line, 1);
  }

  lemma DelayLineReads(n: nat)
    requires n <= MaxDelay
    ensures ReadsAs(RenderCommand(Delay(NatToDecimal(n))), Delay(NatToDecimal(n)))
  {
    var v := NatToDecimal(n);
    var line := RenderCommand(Delay(v));
    assert line == "DELAY " + v;
    DecimalArgument(n);
    KeywordLine("DELAY ", v);
    DelayArgumentReads(line, n);
  }

  lemma DelayArgumentReads(line: string, n: nat)
    requires StartsWith(line, "DELAY ") && Argument(line, 6) == Some(n) && n <= MaxDelay
    ensures ParseLine(line, 1) == Success(Delay(NatToDecimal(n)))
  {
    ParseDelayLine(line, 1);
  }

  lemma LoopLineReads(n: nat)
    requires 1 <= n <= MaxLoopCount
    ensures ReadsAs(RenderCommand(LoopStart(n)), LoopStart(n))
  {
    var v := NatToDecimal(n);
    var line := RenderCommand(LoopStart(n));
    DecimalArgument(n);
    assert line == "LOOP " + v;
    KeywordLine("LOOP ", v);
    assert Argument(line, 5) == Some(n);
    ParseLoopLine(line, 1);
  }

  /** A well-formed command's line is one significant line, its own trim,
      and reads back (as at depth 1) as the command. */
  lemma RenderCommandReads(c: ScriptCommand)
    requires WellFormed(c)
    ensures ReadsAs(RenderCommand(c), c)
  {
    match c
    case Send(v) => SendLineReads(v);
    case Delay(v) =>
      var n: nat :| n <= MaxDelay && v == NatToDecimal(n);
      DelayLineReads(n);
    case LoopStart(n) => LoopLineReads(n);
    case LoopEnd =>
  }

  /** A rendered script's significant lines are its rendered lines, numbered
      from 1, and none of them is blank or a comment. */
  lemma RenderedLines(cs: seq<ScriptCommand>)
    requires |cs| > 0
    requires forall k :: 0 <= k < |cs| ==> WellFormed(cs[k])
    ensures |ScriptLines(Render(cs))| == |cs|
    ensures forall k :: 0 <= k < |cs| ==> ScriptLines(Render(cs))[k].text == RenderCommand(cs[k])
  {
    var lines := RenderLines(cs);
    forall k | 0 <= k < |lines|
      ensures ReadsAs(lines[k], cs[k])
    {
      RenderCommandReads(cs[k]);
    }
    SplitJoin(lines);
    var ns := Numbered(lines, 1);
    SignificantExactly(ns);
  }

  /** The round trip: every non-empty, balanced list of well-formed commands
      (the shape of everything the parser returns for a script with at least
      one command) parses back from its rendering. */
  lemma ParseRender(cs: seq<ScriptCommand>)
    requires |cs| > 0 && Balanced(cs)
    requires forall k :: 0 <= k < |cs| ==> WellFormed(cs[k])
    ensures Parse(Render(cs)) == Success(cs)
  {
    var script := Render(cs);
    RenderedLines(cs);
    forall k | 0 <= k < |cs|
      ensures ParseLine(ScriptLines(script)[k].text, 1) == Success(cs[k])
    {
      RenderCommandReads(cs[k]);
    }
    RenderNotBlank(cs);
    ParseIff(script, cs);
  }

  /** A rendering with at least one command is not blank. */
  lemma RenderNotBlank(cs: seq<ScriptCommand>)
    requires |cs| > 0 && WellFormed(cs[0])
    ensures !AllWhitespace(Render(cs))
  {
    var lines := RenderLines(cs);
    var first := lines[0];
    RenderCommandReads(cs[0]);
    if |lines| == 1 {
      assert Render(cs) == first;
    } else {
      assert Render(cs) == first + "\n" + Join(lines[1..]);
      assert Render(cs)[0] == first[0];
    }
    assert !IsWhitespace(first[0]);
  }

  /** The error half: rendered commands that leave loops open are refused
      with the number of loops left open. */
  lemma ParseRenderOpen(cs: seq<ScriptCommand>, open: nat)
    requires |cs| > 0 && DepthAfter(cs, 0) == Some(open) && open > 0
    requires forall k :: 0 <= k < |cs| ==> WellFormed(cs[k])
    ensures Parse(Render(cs)) == Failure(MissingEnd(open))
  {
    var script := Render(cs);
    RenderedLines(cs);
    RenderNotBlank(cs);
    forall k | 0 <= k < |cs|
      ensures ParseLine(ScriptLines(script)[k].text, 1) == Success(cs[k])
    {
      RenderCommandReads(cs[k]);
    }
    ReadLinesIff(ScriptLines(script), 0, cs, open);
  }

  /** Parsing then rendering then parsing again changes nothing: a script's
      commands are recovered from their canonical rendering. */
  lemma RenderParsed(script: string)
    requires Parse(script).Success? && |Parse(script).value| > 0
    ensures Parse(Render(Parse(script).value)) == Parse(script)
  {
    ParseWellFormed(script);
    ParseRender(Parse(script).value);
  }
}
