/** Worked examples of single lines and small scripts. */
module ParserExamples {
  import opened Wrappers
  import opened JsText
  import opened ScriptCommands
  import opened ScriptParser
  import opened ScriptRender

  /** `parseInt` stops at the first non-digit, so a unit suffix is ignored
      and the stored value is the number's own rendering. */
  lemma DelayWithSuffix()
    ensures ParseLine("DELAY 10ms", 1) == Success(Delay("10"))
  {
    var line := "DELAY 10ms";
    assert StartsWith(line, "DELAY ");
    var arg := line[6..];
    assert arg == "10ms";
    assert Trim(arg) == arg by {
      TrimUnchanged(arg);
    }
    assert arg[1..] == "0ms" && arg[1..][1..] == "ms";
    assert DigitPrefix("ms", 10) == "";
    assert DigitPrefix(arg, 10) == "10";
    assert "10"[..1] == "1" && "1"[..0] == "";
    assert DigitsValue("10", 10) == 10;
    assert LeadingWhitespace(arg) == 0;
    assert !HasHexPrefix(arg);
    assert ParseInt(arg, 0) == Some(10);
    assert NatToDecimal(10) == "10";
    ParseDelayLine(line, 1);
  }

  /** A `0x` prefix makes `parseInt` read hexadecimal. */
  lemma LoopHexCount()
    ensures ParseLine("LOOP 0x10", 1) == Success(LoopStart(16))
  {
    var line := "LOOP 0x10";
    assert StartsWith(line, "LOOP ");
    var arg := line[5..];
    assert arg == "0x10";
    assert Trim(arg) == arg by {
      TrimUnchanged(arg);
    }
    assert HasHexPrefix(arg) && arg[2..] == "10";
    assert "10"[1..] == "0" && "0"[1..] == "";
    assert DigitPrefix("10", 16) == "10";
    assert "10"[..1] == "1" && "1"[..0] == "";
    assert DigitsValue("10", 16) == 16;
    assert LeadingWhitespace(arg) == 0;
    assert ParseInt(arg, 0) == Some(16);
    ParseLoopLine(line, 1);
  }

  /** Any delay above one minute is refused with its value. */
  lemma DelayTooLong(n: nat)
    requires n > MaxDelay
    ensures ParseLine("DELAY " + NatToDecimal(n), 1) == Failure(DelayTooLarge(n))
  {
    var v := NatToDecimal(n);
    var line := "DELAY " + v;
    DecimalArgument(n);
    KeywordLine("DELAY ", v);
    assert Argument(line, 6) == Some(n);
    ParseDelayLine(line, 1);
  }

  /** Any loop count above 10000 is refused with its value. */
  lemma LoopTooLong(n: nat)
    requires n > MaxLoopCount
    ensures ParseLine("LOOP " + NatToDecimal(n), 1) == Failure(LoopCountTooLarge(n))
  {
    var v := NatToDecimal(n);
    var line := "LOOP " + v;
    DecimalArgument(n);
    KeywordLine("LOOP ", v);
    assert Argument(line, 5) == Some(n);
    ParseLoopLine(line, 1);
  }

  /** A loop count of zero is refused. */
  lemma LoopZero()
    ensures ParseLine("LOOP 0", 1) == Failure(InvalidLoopCount("0"))
  {
    var line := "LOOP 0";
    assert NatToDecimal(0) == "0";
    assert StartsWith(line, "LOOP ") && line[5..] == NatToDecimal(0);
    ParseIntDecimal(0);
    TrimUnchanged(line[5..]);
    ParseLoopLine(line, 1);
  }

  /** `SEND` with nothing after it does not match `SEND ` (the line is
      trimmed first), so it is an unknown command. */
  lemma BareSend()
    ensures ParseLine("SEND", 1) == Failure(UnknownCommand("SEND"))
  {
    ParseUnknownLine("SEND", 1);
  }

  /** Surrounding quotes are removed from a `SEND` value, one on each side. */
  lemma SendQuoted()
    ensures ParseLine("SEND \"AT\"", 1) == Success(Send("AT"))
  {
    var line := "SEND \"AT\"";
    var q := "\"AT\"";
    assert StartsWith(line, "SEND ") && line[5..] == q;
    TrimUnchanged(q);
    assert q == ['"'] + "AT" + ['"'];
    StripQuotesWrapped('"', "AT", '"');
    ParseSendLine(line, 1);
  }

  /** A script of one comment line has no commands: it is not blank, so it
      is not refused, and the comment is dropped. */
  lemma CommentOnly(t: string)
    requires |t| > 0 && t[0] == '#' && '\n' !in t
    ensures Parse(t) == Success([])
  {
    SplitPrefix(t, "");
    assert t + "" == t;
    assert Split(t) == [t];
    assert LeadingWhitespace(t) == 0;
    assert Trim(t)[0] == '#';
    assert !IsSignificant(Trim(t));
    assert Numbered([t], 1) == [Line(1, Trim(t))];
    assert ScriptLines(t) == [];
  }

  /** `LOOP 3` with no `END` is refused: one loop left open. */
  lemma LoopWithoutEnd()
    ensures Parse(Render([LoopStart(3), Send("AT")])) == Failure(MissingEnd(1))
  {
    var cs := [LoopStart(3), Send("AT")];
    assert cs[1..] == [Send("AT")] && cs[1..][1..] == [];
    assert DepthAfter(cs, 0) == Some(1);
    ParseRenderOpen(cs, 1);
  }
}
