/** `parseScript` and `validateScript` of lib/scriptParser.ts: script text to a
    command list, line by line, with a loop-depth check and errors tagged by
    1-based line number. */
module ScriptParser {
  import opened Wrappers
  import opened JsText
  import opened ScriptCommands

  /** The largest accepted `DELAY`, in milliseconds, and `LOOP` count. */
  const MaxDelay := 60000
  const MaxLoopCount := 10000

  /** Why one line is rejected. */
  datatype LineErrorKind =
    | SendMissingData                // `SEND ` followed by nothing
    | InvalidDelay(text: string)     // `DELAY` argument NaN or negative
    | DelayTooLarge(delay: int)      // `DELAY` argument above `MaxDelay`
    | InvalidLoopCount(text: string) // `LOOP` argument NaN or below 1
    | LoopCountTooLarge(count: int)  // `LOOP` argument above `MaxLoopCount`
    | UnmatchedEnd                   // `END` with no open `LOOP`
    | UnknownCommand(text: string)   // anything else

  /** Why `parseScript` throws. */
  datatype ParseError =
    | EmptyScript                               // empty or whitespace only
    | LineError(line: nat, kind: LineErrorKind) // first bad line, 1-based
    | MissingEnd(count: nat)                    // loops still open at the end

  /** A line of the script after `trim`, with its 1-based number. */
  datatype Line = Line(number: nat, text: string)

  predicate IsQuote(c: char) {
    c == '"' || c == '\''
  }

  /** 1 when `data` opens with a quote, else 0. */
  function LeadingQuote(data: string): nat {
    if |data| > 0 && IsQuote(data[0]) then 1 else 0
  }

  /** 1 when `data` closes with a quote that is not also its leading quote,
      else 0. */
  function TrailingQuote(data: string): nat {
    if |data| > LeadingQuote(data) && IsQuote(data[|data| - 1]) then 1 else 0
  }

  /** The quote stripping of a `SEND` payload: one leading and one trailing
      quote removed, each only if present, with no need for the two to match. */
  function StripQuotes(data: string): (r: string)
    ensures |r| == |data| - LeadingQuote(data) - TrailingQuote(data)
    ensures r == data <==> |data| == 0 || (!IsQuote(data[0]) && !IsQuote(data[|data| - 1]))
    ensures LeadingQuote(data) + |r| <= |data|
    ensures r == data[LeadingQuote(data)..LeadingQuote(data) + |r|]
  {
    var s := if |data| > 0 && IsQuote(data[0]) then data[1..] else data;
    if |s| > 0 && IsQuote(s[|s| - 1]) then s[..|s| - 1] else s
  }

  /** A value between any two quotes comes back unchanged. */
  lemma StripQuotesWrapped(open: char, v: string, close: char)
    requires IsQuote(open) && IsQuote(close)
    ensures StripQuotes([open] + v + [close]) == v
  {
    var d := [open] + v + [close];
    assert d[1..] == v + [close];
    assert (v + [close])[..|v|] == v;
  }

  /** A numeric argument as `parseInt` reads it. */
  function Argument(text: string, from: nat): Option<int>
    requires from <= |text|
  {
    ParseInt(Trim(text[from..]), 0)
  }

  /** One trimmed, non-blank, non-comment line read at loop depth `depth`. */
  function ParseLine(text: string, depth: nat): (r: Result<ScriptCommand, LineErrorKind>)
    ensures r.Success? && r.value.LoopEnd? <==> text == "END" && depth > 0
    ensures r == Failure(UnmatchedEnd) <==> text == "END" && depth == 0
  {
    if StartsWith(text, "SEND ") then
      var data := Trim(text[5..]);
      if data == "" then Failure(SendMissingData) else Success(Send(StripQuotes(data)))
    else if StartsWith(text, "DELAY ") then
      var arg := Trim(text[6..]);
      match ParseInt(arg, 0)
      case None => Failure(InvalidDelay(arg))
      case Some(delay) =>
        if delay < 0 then Failure(InvalidDelay(arg))
        else if delay > MaxDelay then Failure(DelayTooLarge(delay))
        else Success(Delay(NatToDecimal(delay)))
    else if StartsWith(text, "LOOP ") then
      var arg := Trim(text[5..]);
      match ParseInt(arg, 0)
      case None => Failure(InvalidLoopCount(arg))
      case Some(count) =>
        if count < 1 then Failure(InvalidLoopCount(arg))
        else if count > MaxLoopCount then Failure(LoopCountTooLarge(count))
        else Success(LoopStart(count))
    else if text == "END" then
      if depth == 0 then Failure(UnmatchedEnd) else Success(LoopEnd)
    else Failure(UnknownCommand(text))
  }

  /** What the parser can produce: a one-line `SEND` value, a `DELAY` that is
      the decimal rendering of 0..60000, a `LOOP` count in 1..10000. */
  predicate WellFormed(c: ScriptCommand) {
    match c
    case Send(v) => '\n' !in v
    case Delay(v) => exists n: nat :: n <= MaxDelay && v == NatToDecimal(n)
    case LoopStart(count) => 1 <= count <= MaxLoopCount
    case LoopEnd => true
  }

  /** Trimming and quote stripping only ever drop characters. */
  lemma SendValueOneLine(s: string)
    requires '\n' !in s
    ensures '\n' !in StripQuotes(Trim(s))
  {
    var data := Trim(s);
    var v := StripQuotes(data);
    var a := LeadingWhitespace(s);
    var b := LeadingQuote(data);
    forall i | 0 <= i < |v|
      ensures v[i] != '\n'
    {
      assert v[i] == data[b + i] == s[a + b + i];
    }
  }

  /** A one-line text reads as a well-formed command, if at all. */
  lemma ParseLineWellFormed(text: string, depth: nat)
    requires '\n' !in text
    ensures ParseLine(text, depth).Success? ==> WellFormed(ParseLine(text, depth).value)
  {
    if StartsWith(text, "SEND ") {
      assert forall i :: 0 <= i < |text[5..]| ==> text[5..][i] == text[5 + i];
      SendValueOneLine(text[5..]);
    } else if StartsWith(text, "DELAY ") {
      ParseDelayLine(text, depth);
      if ParseLine(text, depth).Success? {
        var n: nat := Argument(text, 6).value;
        assert n <= MaxDelay && ParseLine(text, depth).value.value == NatToDecimal(n);
      }
    } else if StartsWith(text, "LOOP ") {
      ParseLoopLine(text, depth);
    }
  }

  /** The depth only decides whether `END` is accepted. */
  lemma ParseLineDepth(text: string, depth: nat)
    ensures text != "END" || depth > 0 ==> ParseLine(text, depth) == ParseLine(text, 1)
  {
  }

  /** `SEND ` is accepted exactly when something follows it; the value is
      that text, trimmed, with its outer quotes removed. */
  lemma ParseSendLine(text: string, depth: nat)
    requires StartsWith(text, "SEND ")
    ensures var data := Trim(text[5..]);
      && (ParseLine(text, depth).Success? <==> data != "")
      && (data != "" ==> ParseLine(text, depth) == Success(Send(StripQuotes(data))))
  {
  }

  /** `DELAY` is accepted exactly when its argument reads as an integer in
      0..60000; the command keeps that integer's decimal rendering. */
  lemma ParseDelayLine(text: string, depth: nat)
    requires StartsWith(text, "DELAY ")
    ensures var arg := Argument(text, 6);
      && (ParseLine(text, depth).Success? <==> arg.Some? && 0 <= arg.value <= MaxDelay)
      && (ParseLine(text, depth).Success? ==> ParseLine(text, depth).value == Delay(NatToDecimal(arg.value)))
      && (arg.Some? && arg.value > MaxDelay ==> ParseLine(text, depth) == Failure(DelayTooLarge(arg.value)))
      && (arg.None? || arg.value < 0 ==> ParseLine(text, depth) == Failure(InvalidDelay(Trim(text[6..]))))
  {
    assert !StartsWith(text, "SEND ") by {
      assert text[..5][0] == 'D';
    }
    var arg := Trim(text[6..]);
    var r := ParseLine(text, depth);
    match ParseInt(arg, 0)
    case None =>
      assert r == Failure(InvalidDelay(arg));
    case Some(delay) =>
      if delay < 0 {
        assert r == Failure(InvalidDelay(arg));
      } else if delay > MaxDelay {
        assert r == Failure(DelayTooLarge(delay));
      } else {
        assert r == Success(Delay(NatToDecimal(delay)));
      }
  }

  /** `LOOP` is accepted exactly when its argument reads as an integer in
      1..10000, which becomes the loop count. */
  lemma ParseLoopLine(text: string, depth: nat)
    requires StartsWith(text, "LOOP ")
    ensures var arg := Argument(text, 5);
      && (ParseLine(text, depth).Success? <==> arg.Some? && 1 <= arg.value <= MaxLoopCount)
      && (ParseLine(text, depth).Success? ==> ParseLine(text, depth).value == LoopStart(arg.value))
      && (arg.Some? && arg.value > MaxLoopCount ==> ParseLine(text, depth) == Failure(LoopCountTooLarge(arg.value)))
      && (arg.None? || arg.value < 1 ==> ParseLine(text, depth) == Failure(InvalidLoopCount(Trim(text[5..]))))
  {
    assert !StartsWith(text, "SEND ") by {
      assert text[..5][0] == 'L';
    }
    assert !StartsWith(text, "DELAY ") by {
      assert text[..5][0] == 'L';
    }
    var arg := Trim(text[5..]);
    var r := ParseLine(text, depth);
    match ParseInt(arg, 0)
    case None =>
      assert r == Failure(InvalidLoopCount(arg));
    case Some(count) =>
      if count < 1 {
        assert r == Failure(InvalidLoopCount(arg));
      } else if count > MaxLoopCount {
        assert r == Failure(LoopCountTooLarge(count));
      } else {
        assert r == Success(LoopStart(count));
      }
  }

  /** Any line that is not `SEND `, `DELAY `, `LOOP ` or exactly `END` is an
      unknown command, and nothing else is. */
  lemma ParseUnknownLine(text: string, depth: nat)
    ensures ParseLine(text, depth) == Failure(UnknownCommand(text)) <==>
              !StartsWith(text, "SEND ") && !StartsWith(text, "DELAY ")
              && !StartsWith(text, "LOOP ") && text != "END"
  {
  }

  // ---------------------------------------------------------------------------
  // The line pipeline: split, trim and number, drop blanks and comments
  // ---------------------------------------------------------------------------

  /** Each split piece trimmed and paired with its position, numbering from
      `first` (the source numbers from 1). */
  function Numbered(lines: seq<string>, first: nat): (r: seq<Line>)
    ensures |r| == |lines|
    ensures forall k :: 0 <= k < |r| ==> r[k] == Line(first + k, Trim(lines[k]))
  {
    if |lines| == 0 then [] else [Line(first, Trim(lines[0]))] + Numbered(lines[1..], first + 1)
  }

  predicate IsSignificant(text: string) {
    text != "" && !StartsWith(text, "#")
  }

  /** The filter that drops blank lines and lines starting with `#`, keeping
      the others in order. */
  function Significant(ls: seq<Line>): (r: seq<Line>)
    ensures |r| <= |ls|
    ensures forall k :: 0 <= k < |r| ==> IsSignificant(r[k].text)
  {
    if |ls| == 0 then []
    else if IsSignificant(ls[0].text) then [ls[0]] + Significant(ls[1..])
    else Significant(ls[1..])
  }

  /** The filter keeps exactly the significant lines: what it keeps comes from
      its input, every significant input line is kept, and input that is all
      significant passes unchanged. `SignificantPositions` and
      `SignificantAppend` state that the order is kept. */
  lemma {:induction false} SignificantExactly(ls: seq<Line>)
    ensures forall k :: 0 <= k < |Significant(ls)| ==> Significant(ls)[k] in ls
    ensures forall k :: 0 <= k < |ls| && IsSignificant(ls[k].text) ==> ls[k] in Significant(ls)
    ensures (forall k :: 0 <= k < |ls| ==> IsSignificant(ls[k].text)) ==> Significant(ls) == ls
  {
    if |ls| > 0 {
      SignificantExactly(ls[1..]);
      var r := Significant(ls);
      var t := Significant(ls[1..]);
      forall k | 0 <= k < |r|
        ensures r[k] in ls
      {
        if IsSignificant(ls[0].text) && k > 0 {
          assert r[k] == t[k - 1];
        }
      }
      forall k | 1 <= k < |ls| && IsSignificant(ls[k].text)
        ensures ls[k] in r
      {
        assert ls[k] == ls[1..][k - 1];
      }
      if forall k :: 0 <= k < |ls| ==> IsSignificant(ls[k].text) {
        assert forall k :: 0 <= k < |ls| - 1 ==> IsSignificant(ls[1..][k].text) by {
          forall k | 0 <= k < |ls| - 1
            ensures IsSignificant(ls[1..][k].text)
          {
            assert ls[1..][k] == ls[k + 1];
          }
        }
        assert ls == [ls[0]] + ls[1..];
      }
    }
  }

  /** The filter keeps the input order: the lines it keeps sit at strictly
      increasing positions of the input, and every significant input line is
      at one of them. */
  lemma {:induction false} SignificantPositions(ls: seq<Line>) returns (idx: seq<nat>)
    ensures |idx| == |Significant(ls)|
    ensures forall k :: 0 <= k < |idx| ==> idx[k] < |ls| && Significant(ls)[k] == ls[idx[k]]
    ensures forall k, m :: 0 <= k < m < |idx| ==> idx[k] < idx[m]
    ensures forall i :: 0 <= i < |ls| && IsSignificant(ls[i].text) ==> i in idx
  {
    if |ls| == 0 {
      idx := [];
    } else {
      var t := SignificantPositions(ls[1..]);
      idx := ConsPositions(ls, Significant(ls[1..]), t, IsSignificant(ls[0].text));
    }
  }

  /** One step of `SignificantPositions`: from the positions of what the
      filter keeps of `ls[1..]`, those of what it keeps of `ls`. */
  lemma ConsPositions(ls: seq<Line>, rest: seq<Line>, t: seq<nat>, keep: bool) returns (idx: seq<nat>)
    requires |ls| > 0 && keep == IsSignificant(ls[0].text)
    requires |t| == |rest|
    requires forall k :: 0 <= k < |t| ==> t[k] < |ls| - 1 && rest[k] == ls[1..][t[k]]
    requires forall k, m :: 0 <= k < m < |t| ==> t[k] < t[m]
    requires forall i :: 0 <= i < |ls| - 1 && IsSignificant(ls[1..][i].text) ==> i in t
    ensures var r := if keep then [ls[0]] + rest else rest;
      && |idx| == |r|
      && (forall k :: 0 <= k < |idx| ==> idx[k] < |ls| && r[k] == ls[idx[k]])
      && (forall k, m :: 0 <= k < m < |idx| ==> idx[k] < idx[m])
      && (forall i :: 0 <= i < |ls| && IsSignificant(ls[i].text) ==> i in idx)
  {
    var shifted := seq(|t|, k requires 0 <= k < |t| => t[k] + 1);
    forall i | 1 <= i < |ls| && IsSignificant(ls[i].text)
      ensures i in shifted
    {
      assert ls[1..][i - 1] == ls[i];
      ShiftedHas(t, shifted, i - 1);
    }
    if keep {
      idx := [0] + shifted;
      var r := [ls[0]] + rest;
      forall k | 0 <= k < |idx|
        ensures idx[k] < |ls| && r[k] == ls[idx[k]]
      {
        if k > 0 {
          assert idx[k] == shifted[k - 1] && r[k] == rest[k - 1];
          assert ls[1..][t[k - 1]] == ls[t[k - 1] + 1];
        }
      }
      assert idx[0] == 0;
    } else {
      idx := shifted;
      forall k | 0 <= k < |idx|
        ensures idx[k] < |ls| && rest[k] == ls[idx[k]]
      {
        assert ls[1..][t[k]] == ls[t[k] + 1];
      }
    }
  }

  lemma ShiftedHas(t: seq<nat>, shifted: seq<nat>, x: nat)
    requires |shifted| == |t| && forall k :: 0 <= k < |t| ==> shifted[k] == t[k] + 1
    requires x in t
    ensures x + 1 in shifted
  {
    var k :| 0 <= k < |t| && t[k] == x;
    assert shifted[k] == x + 1;
  }

  /** The filter works line by line, so it distributes over concatenation:
      with its action on a single line this fixes its result, order included. */
  lemma {:induction false} SignificantAppend(a: seq<Line>, b: seq<Line>)
    ensures Significant(a + b) == Significant(a) + Significant(b)
  {
    if |a| == 0 {
      assert a + b == b;
    } else {
      assert (a + b)[0] == a[0];
      assert (a + b)[1..] == a[1..] + b;
      SignificantAppend(a[1..], b);
    }
  }

  /** The significant lines of a script, numbered from 1. */
  function ScriptLines(script: string): seq<Line> {
    Significant(Numbered(Split(script), 1))
  }

  /** Each significant line is the trimmed text of the script line its number
      names. */
  lemma ScriptLineAt(script: string, k: nat)
    requires k < |ScriptLines(script)|
    ensures var l := ScriptLines(script)[k];
      && 1 <= l.number <= |Split(script)|
      && l.text == Trim(Split(script)[l.number - 1])
      && IsSignificant(l.text)
  {
    var ns := Numbered(Split(script), 1);
    var l := ScriptLines(script)[k];
    SignificantExactly(ns);
    assert l in ns;
    var j :| 0 <= j < |ns| && ns[j] == l;
  }

  // ---------------------------------------------------------------------------
  // The command loop
  // ---------------------------------------------------------------------------

  /** The parser's loop-stack depth after reading `c`. */
  function NextDepth(c: ScriptCommand, depth: nat): nat {
    match c
    case LoopStart(_) => depth + 1
    case LoopEnd => if depth > 0 then depth - 1 else 0
    case _ => depth
  }

  /** The `for` loop over the significant lines, entered at loop depth
      `depth`: the commands read and the depth left open, or the first bad
      line. */
  function ReadLines(ls: seq<Line>, depth: nat): (r: Result<(seq<ScriptCommand>, nat), ParseError>)
    ensures r.Success? ==> |r.value.0| == |ls|
    ensures r.Success? ==> DepthAfter(r.value.0, depth) == Some(r.value.1)
    ensures r.Failure? ==> r.error.LineError? && exists k :: 0 <= k < |ls| && ls[k].number == r.error.line
  {
    if |ls| == 0 then Success(([], depth))
    else
      match ParseLine(ls[0].text, depth)
      case Failure(kind) => Failure(LineError(ls[0].number, kind))
      case Success(c) =>
        match ReadLines(ls[1..], NextDepth(c, depth))
        case Failure(e) => Failure(e)
        case Success((rest, open)) => Success(([c] + rest, open))
  }

  /** The loop succeeds exactly when every line reads on its own (as at
      depth 1) and the commands never end a loop that is not open; `END` is
      the only line whose reading depends on the depth. */
  lemma {:induction false} ReadLinesIff(ls: seq<Line>, depth: nat, cs: seq<ScriptCommand>, open: nat)
    ensures ReadLines(ls, depth) == Success((cs, open)) <==>
              && |cs| == |ls|
              && (forall k :: 0 <= k < |ls| ==> ParseLine(ls[k].text, 1) == Success(cs[k]))
              && DepthAfter(cs, depth) == Some(open)
  {
    if |ls| > 0 && |cs| > 0 {
      var t := ls[0].text;
      ParseLineDepth(t, depth);
      ReadLinesIff(ls[1..], NextDepth(cs[0], depth), cs[1..], open);
      assert cs == [cs[0]] + cs[1..];
      if ReadLines(ls, depth) == Success((cs, open)) {
        assert ParseLine(t, depth) == Success(cs[0]);
        forall k | 0 <= k < |ls|
          ensures ParseLine(ls[k].text, 1) == Success(cs[k])
        {
          if k > 0 {
            assert ls[1..][k - 1] == ls[k] && cs[1..][k - 1] == cs[k];
          }
        }
      }
      if && |cs| == |ls|
         && (forall k :: 0 <= k < |ls| ==> ParseLine(ls[k].text, 1) == Success(cs[k]))
         && DepthAfter(cs, depth) == Some(open) {
        assert ParseLine(t, 1) == Success(cs[0]);
        assert ParseLine(t, depth) == Success(cs[0]);
        forall k | 0 <= k < |ls| - 1
          ensures ParseLine(ls[1..][k].text, 1) == Success(cs[1..][k])
        {
          assert ls[1..][k] == ls[k + 1];
        }
      }
    }
  }

  /** A failing loop stops at its first bad line: every line before it reads,
      and that line does not read at the depth they leave open. */
  lemma {:induction false} ReadLinesFailure(ls: seq<Line>, depth: nat) returns (k: nat)
    requires ReadLines(ls, depth).Failure?
    ensures k < |ls| && ReadLines(ls, depth).error == LineError(ls[k].number, ReadLines(ls, depth).error.kind)
    ensures ReadLines(ls[..k], depth).Success?
    ensures ParseLine(ls[k].text, ReadLines(ls[..k], depth).value.1) == Failure(ReadLines(ls, depth).error.kind)
  {
    assert ls[..0] == [];
    match ParseLine(ls[0].text, depth)
    case Failure(_) =>
      k := 0;
    case Success(c) =>
      var j := ReadLinesFailure(ls[1..], NextDepth(c, depth));
      k := j + 1;
      assert ls[..k][0] == ls[0];
      assert ls[..k][1..] == ls[1..][..j];
      assert ls[k] == ls[1..][j];
  }

  // ---------------------------------------------------------------------------
  // parseScript
  // ---------------------------------------------------------------------------

  /** `parseScript`: an empty or whitespace-only script is refused; otherwise
      the significant lines are read in order, and loops still open at the
      end are reported with their number. */
  function Parse(script: string): (r: Result<seq<ScriptCommand>, ParseError>)
    ensures r == Failure(EmptyScript) <==> AllWhitespace(script)
    ensures r.Success? ==> Balanced(r.value) && |r.value| == |ScriptLines(script)|
    ensures r.Failure? && r.error.LineError? ==> 1 <= r.error.line <= |Split(script)|
    ensures r.Failure? && r.error.MissingEnd? ==> r.error.count > 0
  {
    if Trim(script) == "" then Failure(EmptyScript)
    else
      var ls := ScriptLines(script);
      match ReadLines(ls, 0)
      case Failure(e) =>
        var k :| 0 <= k < |ls| && ls[k].number == e.line;
        ScriptLineAt(script, k);
        Failure(e)
      case Success((cs, open)) => CheckClosed(cs, open)
  }

  /** The check after the loop: loops still open are an error. */
  function CheckClosed(cs: seq<ScriptCommand>, open: nat): (r: Result<seq<ScriptCommand>, ParseError>)
    requires DepthAfter(cs, 0) == Some(open)
    ensures r.Success? <==> open == 0
    ensures r.Success? ==> r.value == cs && Balanced(cs)
    ensures r.Failure? ==> r.error == MissingEnd(open) && open > 0
  {
    if open > 0 then Failure(MissingEnd(open))
    else
      ClosesIsDepthZero(cs, 0);
      Success(cs)
  }

  /** The parser's result, characterised without its loop: it succeeds with
      `cs` exactly when the script is not blank, `cs` has one command per
      significant line, each line reads as its command, and `cs` is
      balanced. */
  lemma ParseIff(script: string, cs: seq<ScriptCommand>)
    ensures Parse(script) == Success(cs) <==>
              && !AllWhitespace(script)
              && |cs| == |ScriptLines(script)|
              && (forall k :: 0 <= k < |cs| ==> ParseLine(ScriptLines(script)[k].text, 1) == Success(cs[k]))
              && Balanced(cs)
  {
    ReadLinesIff(ScriptLines(script), 0, cs, 0);
    ClosesIsDepthZero(cs, 0);
  }

  /** Every command parsed is well formed. */
  lemma ParseWellFormed(script: string)
    requires Parse(script).Success?
    ensures forall k :: 0 <= k < |Parse(script).value| ==> WellFormed(Parse(script).value[k])
  {
    var cs := Parse(script).value;
    var ls := ScriptLines(script);
    ParseIff(script, cs);
    forall k | 0 <= k < |cs|
      ensures WellFormed(cs[k])
    {
      ScriptLineAt(script, k);
      var n := ls[k].number;
      TrimmedLine(Split(script)[n - 1]);
      ParseLineWellFormed(ls[k].text, 1);
    }
  }

  /** A script line, and so its trimmed text, has no line feed. */
  lemma TrimmedLine(line: string)
    requires '\n' !in line
    ensures '\n' !in Trim(line)
  {
    var t := Trim(line);
    var a := LeadingWhitespace(line);
    forall i | 0 <= i < |t|
      ensures t[i] != '\n'
    {
      assert t[i] == line[a + i];
    }
  }

  /** A failing line is named by its number in the whole script, blank and
      comment lines counted; every significant line before it reads, and it
      does not read at the depth they leave open. */
  lemma ParseLineFailure(script: string) returns (k: nat)
    requires Parse(script).Failure? && Parse(script).error.LineError?
    ensures var e := Parse(script).error;
      var ls := ScriptLines(script);
      && k < |ls| && ls[k].number == e.line
      && ls[k].text == Trim(Split(script)[e.line - 1])
      && ReadLines(ls[..k], 0).Success?
      && ParseLine(ls[k].text, ReadLines(ls[..k], 0).value.1) == Failure(e.kind)
  {
    k := ReadLinesFailure(ScriptLines(script), 0);
    ScriptLineAt(script, k);
  }

  /** Loops left open are counted: every line reads, and the count is the
      `LOOP`s minus the `END`s. */
  lemma ParseMissingEnd(script: string)
    requires Parse(script).Failure? && Parse(script).error.MissingEnd?
    ensures var r := ReadLines(ScriptLines(script), 0);
      && r.Success?
      && Parse(script).error.count + Ends(r.value.0) == Starts(r.value.0)
  {
  }

  /** After `SEND ` in a line whose last character is not whitespace there
      is something left once trimmed. */
  lemma SendDataNonEmpty(t: string)
    requires StartsWith(t, "SEND ") && !IsWhitespace(t[|t| - 1])
    ensures Trim(t[5..]) != ""
  {
    assert t[..5][4] == ' ';
    var rest := t[5..];
    assert rest[|rest| - 1] == t[|t| - 1];
    assert !AllWhitespace(rest);
  }

  /** A line that is empty or ends in a non-whitespace character never
      raises the "SEND without data" error. */
  lemma SendHasDataAt(t: string, depth: nat)
    requires t == "" || !IsWhitespace(t[|t| - 1])
    ensures ParseLine(t, depth) != Failure(SendMissingData)
  {
    if StartsWith(t, "SEND ") {
      SendDataNonEmpty(t);
    }
  }

  /** A trimmed line never raises the "SEND without data" error. */
  lemma SendHasData(line: string, depth: nat)
    ensures ParseLine(Trim(line), depth) != Failure(SendMissingData)
  {
    SendHasDataAt(Trim(line), depth);
  }

  /** The "SEND without data" error is never raised. */
  lemma SendMissingDataUnreachable(script: string)
    ensures Parse(script).Failure? && Parse(script).error.LineError? ==>
              Parse(script).error.kind != SendMissingData
  {
    if Parse(script).Failure? && Parse(script).error.LineError? {
      var k := ParseLineFailure(script);
      var ls := ScriptLines(script);
      SendHasData(Split(script)[ls[k].number - 1], ReadLines(ls[..k], 0).value.1);
    }
  }

  // ---------------------------------------------------------------------------
  // validateScript
  // ---------------------------------------------------------------------------

  datatype Validation = Validation(valid: bool, error: Option<ParseError>)

  /** `validateScript`: valid exactly when `parseScript` does not throw, and
      otherwise carrying its error. */
  function ValidateScript(script: string): (r: Validation)
    ensures r.valid <==> Parse(script).Success?
    ensures r.valid <==> r.error.None?
    ensures !r.valid ==> r.error.value == Parse(script).error
  {
    match Parse(script)
    case Success(_) => Validation(true, None)
    case Failure(e) => Validation(false, Some(e))
  }
}
