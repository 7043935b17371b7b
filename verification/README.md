# Serial script engine and byte codec, in Dafny

A model of the two pure parts of a browser serial-port terminal.

- **The script language of `lib/scriptParser.ts`.**
  - `parseScript` turns `SEND` / `DELAY` / `LOOP` / `END` / `#` text into a flat list of commands. Otherwise it throws an error tagged with a 1-based line number.
  - `executeScript` runs such a list. It uses a program counter, a stack of loop frames `{startIndex, count, current}`, a stop check before every step, a progress report per step and a cap of 1,000,000 steps.
  - `validateScript` reports whether parsing succeeds.
- **The byte codec of `lib/dataConverter.ts`.**
  - `textToBytes` and `bytesToText`.
  - `bytesToHex`, `hexToBytes` and `isValidHex`.

Modules, one per file:

- `Wrappers`: `Option` and `Result`.
- `JsText`: the JavaScript string primitives the source relies on.
  - `trim` and the `\s` class.
  - `split('\n')` and `startsWith`.
  - `parseInt(string, radix)` as in section 19.2.5 of ECMA-262: leading whitespace, one optional sign, an optional `0x` prefix when the radix is absent or 16, then the longest digit prefix, and `NaN` (here `None`) when there are no digits.
  - `Number.prototype.toString()` on naturals below 10^21, where it writes plain decimal digits.
- `ScriptCommands`: the `ScriptCommand` datatype of `types/serial.ts`.
  - Loop balance, read three ways: as a depth counter, as prefix counts, and as index-range nesting.
  - The loops enclosing a position.
- `ScriptParser`: `parseScript` and `validateScript`.
- `ScriptRender`: a printer for command lists. It is used to prove that the parser accepts every list it can produce, and only those.
- `ParserExamples`: single lines and scripts worked through the parser.
- `ScriptExecutor`: `executeScript` as a step function, driven until the list ends or the run throws.
  - The callbacks become data. `Env` holds the steps before which `shouldStop()` is true and the steps whose send rejects.
  - The effects become a trace of events:
    - `Progress(current, total)` for `onProgress`;
    - `Transmit(data)` for `sendCallback`;
    - `Wait(value)` for the `DELAY` timer.
- `ReferenceRun`: what a run of a balanced list does, read off the loop structure instead of the program counter. Each command runs in turn, and a loop's body and `END` run `Iterations(count)` times. It is proved that:
  - the executor produces exactly this trace;
  - every command runs, and every non-empty `SEND` calls `sendCallback`, once per combination of passes of the loops enclosing it: the product of their counts.
- `ExecutorExamples`: small runs worked out in full.
- `Utf8`, `DataConverter`: UTF-8 encoding as in section 3 of RFC 3629, and the codec.

Three behaviours of the code worth noting:

- A bare `SEND` line fails as an unknown command. The `SEND` branch's missing-data error is dead code: after `trim`, text starting with `"SEND "` always has a non-blank rest, so the missing-data error can never be raised (`ScriptParser.SendMissingDataUnreachable`).
- `LOOP 3` / `SEND "A"` / `END` reports progress against a total of 3, the length of the list, not the number of steps. It takes seven steps, because the `END` itself runs three times (`ExecutorExamples.LoopThreeSends`).
- A script of comment lines only parses to the empty list. It is only rejected later, by `executeScript`.

## Model

| member | source | states |
|---|---|---|
| JsText.Trim | lib/scriptParser.ts:13 | `trim` yields the part of the text between its leading and trailing whitespace; that part starts and ends with non-whitespace and is empty exactly when the text is all whitespace |
| JsText.JoinSplit | lib/scriptParser.ts:11-12 | the pieces of `split('\n')`, joined again with newlines, give back the script |
| JsText.SplitJoin | lib/scriptParser.ts:11-12 | splitting newline-joined lines that contain no newline gives back those lines |
| JsText.ParseIntDecimal | lib/scriptParser.ts:41 | `parseInt` reads the decimal rendering of a natural back as that number, so a stored `delay.toString()` keeps its value |
| ScriptExecutor.DelayStepWaits | lib/scriptParser.ts:124-126 | a `DELAY` step whose value is the stored rendering of a delay `n` sets exactly one timer, whose length `parseInt` reads as `n` |
| ScriptCommands.Iterations | lib/scriptParser.ts:134-152 | the body of a loop runs exactly `loopCount` times when `loopCount` is at least 1, and once otherwise |
| ScriptCommands.ClosesIsDepthZero | lib/scriptParser.ts:54-74 | a list is loop-balanced exactly when the parser's loop stack, run over it, never pops an empty stack and ends empty |
| ScriptCommands.ClosesIffCounts | lib/scriptParser.ts:54-74 | balanced exactly when no prefix has more `END`s than `LOOP`s and the totals are equal |
| ScriptCommands.NestedIsCloses | lib/scriptParser.ts:140-152 | the index-range nesting the executor's jumps follow is the same as balance of that slice |
| ScriptCommands.MatchingEnd | lib/scriptParser.ts:140-152 | in a balanced stretch, the `END` that closes a loop lies inside it, its body is balanced and so is what follows |
| ScriptParser.StripQuotes | lib/scriptParser.ts:27 | a leading quote (`"` or `'`) is dropped, then a trailing one, each only when present; what lies between is kept as it is, and the text is unchanged exactly when neither end is a quote |
| ScriptParser.StripQuotesWrapped | lib/scriptParser.ts:27 | any pair of quotes around a value is removed, matching or not |
| ScriptParser.ParseLine | lib/scriptParser.ts:57-63 | a line is a loop end exactly when it is the text `END` with a loop open, and fails as an unmatched `END` exactly when no loop is open |
| ScriptParser.ParseSendLine | lib/scriptParser.ts:21-29 | a `SEND ` line succeeds exactly when its trimmed rest is non-empty, giving that rest with its outer quotes stripped |
| ScriptParser.ParseDelayLine | lib/scriptParser.ts:30-42 | a `DELAY ` line succeeds exactly when `parseInt` of its argument is in 0..60000, storing the decimal rendering; a larger number and a `NaN` or negative value give their two distinct errors |
| ScriptParser.ParseLoopLine | lib/scriptParser.ts:43-56 | a `LOOP ` line succeeds exactly when `parseInt` of its argument is in 1..10000; a larger number and a `NaN` or smaller value give their two distinct errors |
| ScriptParser.ParseUnknownLine | lib/scriptParser.ts:64-66 | a line fails as an unknown command exactly when it starts with none of the three keywords and is not `END` |
| ScriptParser.ParseLineWellFormed | lib/scriptParser.ts:21-56 | a parsed command has a one-line `SEND` value, a `DELAY` that is the rendering of 0..60000, and a `LOOP` count in 1..10000 |
| ScriptParser.Numbered | lib/scriptParser.ts:13 | line k of the split is numbered k + 1 and carries its trimmed text |
| ScriptParser.SignificantExactly | lib/scriptParser.ts:14 | the filter keeps exactly the non-blank lines that do not start with `#`, and keeps all of them when all qualify |
| ScriptParser.SignificantPositions | lib/scriptParser.ts:14 | the kept lines are the input lines at strictly increasing positions, so their order (and the line numbers errors report) follow the script |
| ScriptParser.SignificantAppend | lib/scriptParser.ts:14 | the filter acts line by line: filtering a concatenation concatenates the filtered parts |
| ScriptParser.ScriptLineAt | lib/scriptParser.ts:11-14 | every kept line is the trimmed text of the script line its number names |
| ScriptParser.ReadLinesIff | lib/scriptParser.ts:19-70 | the loop over kept lines succeeds with a list and an open depth exactly when every line parses to its command and that depth is what remains open |
| ScriptParser.ReadLinesFailure | lib/scriptParser.ts:67-69 | a failing loop reports the number of the first line that fails, every line before it parses, and the kind is that line's own error |
| ScriptParser.Parse | lib/scriptParser.ts:6-77 | the empty-script error comes exactly for whitespace-only text; a result is balanced with one command per kept line; a line error names a real line; a missing-`END` count is positive |
| ScriptParser.ParseIff | lib/scriptParser.ts:6-77 | parsing yields a list exactly when the text is not blank, the list has one command per kept line, each line parses to its command, and the list is balanced |
| ScriptParser.ParseLineFailure | lib/scriptParser.ts:11-69 | a line error carries the 1-based number of a line of the original text, counting blank and comment lines, and that line's trimmed text fails with that kind |
| ScriptParser.CheckClosed | lib/scriptParser.ts:72-76 | the parse is returned exactly when no loop is left open, otherwise the error carries the number left open |
| ScriptParser.ParseMissingEnd | lib/scriptParser.ts:72-74 | the missing-`END` count is the number of `LOOP`s minus the number of `END`s |
| ScriptParser.SendMissingDataUnreachable | lib/scriptParser.ts:21-25 | the `SEND` missing-data error is never the result of parsing any script |
| ScriptParser.ParseWellFormed | lib/scriptParser.ts:21-56 | every command of a parsed list is well formed |
| ScriptParser.ValidateScript | lib/scriptParser.ts:174-181 | valid exactly when parsing succeeds; an error is present exactly when invalid, and it is the parse error |
| ScriptRender.RenderCommandReads | lib/scriptParser.ts:21-63 | the printed line of every well-formed command is one trimmed, significant line that parses back to that command |
| ScriptRender.RenderedLines | lib/scriptParser.ts:11-14 | the kept lines of a printed list are the printed commands, one per command |
| ScriptRender.ParseRender | lib/scriptParser.ts:6-77 | every non-empty, balanced list of well-formed commands is what the parser returns for its printout |
| ScriptRender.ParseRenderOpen | lib/scriptParser.ts:72-74 | a printout that leaves loops open fails with exactly that many missing `END`s |
| ScriptRender.RenderParsed | lib/scriptParser.ts:6-77 | reprinting a non-empty parse and parsing again gives the same parse |
| ParserExamples.DelayWithSuffix | lib/scriptParser.ts:30-41 | the line `DELAY 10ms` is accepted, stored as the delay `10` |
| ParserExamples.LoopHexCount | lib/scriptParser.ts:43-55 | the line `LOOP 0x10` is accepted as a loop of 16 passes |
| ParserExamples.DelayTooLong | lib/scriptParser.ts:37-39 | a delay above 60000 is refused with its value |
| ParserExamples.LoopTooLong | lib/scriptParser.ts:50-52 | a count above 10000 is refused with its value |
| ParserExamples.LoopZero | lib/scriptParser.ts:47-49 | `LOOP 0` is an invalid count |
| ParserExamples.BareSend | lib/scriptParser.ts:64-66 | the line `SEND` alone fails as an unknown command, not as a `SEND` missing data |
| ParserExamples.SendQuoted | lib/scriptParser.ts:21-28 | `SEND "AT"` sends `AT` |
| ParserExamples.CommentOnly | lib/scriptParser.ts:11-16 | a script of one comment line parses to the empty list |
| ParserExamples.LoopWithoutEnd | lib/scriptParser.ts:72-74 | a `LOOP` never closed fails with one missing `END` |
| ScriptExecutor.StepShape | lib/scriptParser.ts:114-160 | a step throws exactly on a rejected non-empty send or an `END` with no frame; it moves to the next index except at an `END` that jumps back to the first body command and bumps `current`; `LOOP_START` pushes a fresh frame; only a non-empty `SEND` sends and only a non-empty `DELAY` waits |
| ScriptExecutor.StepSent | lib/scriptParser.ts:116-121 | a step's answer from the send oracle only decides whether a non-empty send throws; otherwise the step is the same |
| ScriptExecutor.StepEvents | lib/scriptParser.ts:110-121 | each step reports its own 1-based index against the list length exactly once, and sends only a non-empty `SEND` value of the list |
| ScriptExecutor.Run | lib/scriptParser.ts:97-168 | a step error always names an index of the list, and a started run never ends with the empty-list error |
| ScriptExecutor.RunSteps | lib/scriptParser.ts:97-106 | a run takes at most 1,000,000 steps, ends as a runaway exactly at the cap, never takes a step before which a stop is raised, and is cancelled only at such a step |
| ScriptExecutor.RunEvents | lib/scriptParser.ts:110-119 | every report has 1 <= current <= total == list length, and every send carries a non-empty `SEND` value of the list |
| ScriptExecutor.Execute | lib/scriptParser.ts:82-90 | the empty-list error comes exactly for an empty list, before any event |
| ScriptExecutor.RunPrefixOfQuiet | lib/scriptParser.ts:97-163 | under any stops and rejections a run is the undisturbed run, or a prefix of it cut short by a stop or a rejected send |
| ScriptExecutor.ExecutePrefixOfQuiet | lib/scriptParser.ts:82-169 | the same for a whole execution |
| ReferenceRun.LoopStartStep | lib/scriptParser.ts:131-138 | `LOOP_START` reports itself and pushes a frame with its count and no pass finished |
| ReferenceRun.LoopEndStep | lib/scriptParser.ts:140-152 | `END` reports itself, then jumps back while passes remain and otherwise pops the frame and moves on |
| ReferenceRun.PlainStepRuns | lib/scriptParser.ts:116-129 | `SEND` and `DELAY` report themselves, make their effects and move to the next index |
| ReferenceRun.SegmentRuns | lib/scriptParser.ts:97-164 | the undisturbed executor runs any balanced stretch as the structured trace says, whatever loops are open around it, or hits the cap within it |
| ReferenceRun.PlainSegmentRuns | lib/scriptParser.ts:114-129 | the same for a stretch starting with `SEND` or `DELAY` |
| ReferenceRun.LoopSegmentRuns | lib/scriptParser.ts:131-152 | the same for a stretch starting with a loop |
| ReferenceRun.PassesThenRest | lib/scriptParser.ts:131-152 | from a fresh frame, the executor runs every pass of the loop and then the rest of the stretch |
| ReferenceRun.OnePass | lib/scriptParser.ts:140-152 | one pass is the body followed by the `END` step |
| ReferenceRun.LoopRuns | lib/scriptParser.ts:140-152 | a frame with `current` passes finished runs the remaining passes and leaves with the frame popped |
| ReferenceRun.ExecuteQuiet | lib/scriptParser.ts:82-169 | a non-empty balanced list, run undisturbed, completes with exactly the structured trace when that trace fits under the step cap, and otherwise ends as a runaway |
| ReferenceRun.BalancedOutcomes | lib/scriptParser.ts:140-168 | under any environment a non-empty balanced list completes, hits the cap, is cancelled or has a send rejected; it never throws for a stray `END` or an unfinished loop, and a completed run makes the structured trace |
| ReferenceRun.ExecVisits | lib/scriptParser.ts:110-152 | in the structured trace of a stretch, each command in it is reported once per combination of passes of the loops enclosing it within the stretch, and a command outside it never |
| ReferenceRun.RepeatVisits | lib/scriptParser.ts:140-152 | `times` passes report a body command `times` times as often as one pass, and the `END` once per pass |
| ReferenceRun.ExecSendCalls | lib/scriptParser.ts:116-121 | in the structured trace of a stretch, a non-empty `SEND` calls `sendCallback` once per combination of enclosing passes; every other command never |
| ReferenceRun.RepeatSendCalls | lib/scriptParser.ts:140-152 | `times` passes multiply the send calls of one pass by `times` |
| ReferenceRun.ExecuteVisits | lib/scriptParser.ts:97-156 | in a completed run of a balanced list, command p is reported exactly the product of the counts of the loops enclosing it |
| ReferenceRun.ExecuteSendCalls | lib/scriptParser.ts:114-156 | in a completed run of a balanced list, a non-empty `SEND` calls `sendCallback` exactly the product of the enclosing loop counts, and an empty one never |
| ExecutorExamples.StrayEnd | lib/scriptParser.ts:140-163 | a lone `END` reports itself and throws at index 0 |
| ExecutorExamples.OpenLoop | lib/scriptParser.ts:166-168 | a lone `LOOP` runs, then the run throws for the unfinished loop |
| ExecutorExamples.LoopThreeSends | lib/scriptParser.ts:131-156 | `LOOP 3` / `SEND AT` / `END` completes in seven steps with three sends, each pass reporting the `SEND` and the `END` |
| Utf8.EncodeChar | lib/dataConverter.ts:6 | a code point below 0x80 is one byte equal to it; above that it takes 2, 3 or 4 bytes by range, every byte after the first a continuation byte |
| Utf8.DecodeEncode | lib/dataConverter.ts:6 | strict UTF-8 decoding of the encoding gives the text back |
| Utf8.EncodeDecode | lib/dataConverter.ts:6 | every byte string that decodes strictly is the encoding of what it decodes to |
| DataConverter.TextToBytes | lib/dataConverter.ts:4-7 | the empty text gives no bytes; ASCII text gives one byte per character, equal to its code |
| DataConverter.TextToBytesInjective | lib/dataConverter.ts:4-7 | the bytes of a text decode back to that text, so different texts give different bytes |
| DataConverter.ByteToHex | lib/dataConverter.ts:67 | a byte is two hexadecimal digits whose value is the byte |
| DataConverter.BytesToHex | lib/dataConverter.ts:63-69 | no bytes give `""`; n > 0 bytes give 3n - 1 characters |
| DataConverter.BytesToHexLayout | lib/dataConverter.ts:66-68 | byte i sits at positions 3i and 3i + 1 as its upper-case high and low digits, with single spaces between bytes |
| DataConverter.BytesToHexAlphabet | lib/dataConverter.ts:66-68 | the rendering holds only hexadecimal digits and spaces |
| DataConverter.KeepHexDigits | lib/dataConverter.ts:38 | every non-hexadecimal character is dropped, not just whitespace; the result is empty exactly when there is no digit, and digit-only text is kept as is |
| DataConverter.ParsePair | lib/dataConverter.ts:50 | `parseInt(pair, 16)` of two hexadecimal digits is their value |
| DataConverter.DecodePairsDigits | lib/dataConverter.ts:48-57 | over digits the loop never throws, and byte i is the value of pair i |
| DataConverter.HexToBytes | lib/dataConverter.ts:34-57 | `""` gives no bytes; otherwise it fails exactly when the cleaned digits are none (empty error) or odd in number (odd-length error), and else gives half as many bytes as digits |
| DataConverter.HexToBytesValues | lib/dataConverter.ts:48-57 | byte i of a decoding is the value of the i-th pair of cleaned digits |
| DataConverter.HexToBytesNeverInvalidPair | lib/dataConverter.ts:51-53 | the `NaN` branch never fires |
| DataConverter.HexRoundTrip | lib/dataConverter.ts:34-69 | decoding the rendering of any bytes, including none, gives those bytes |
| DataConverter.IsValidHex | lib/dataConverter.ts:74-83 | valid exactly when the text with whitespace removed is non-empty, even in length and all hexadecimal digits |
| DataConverter.ValidHexDecodes | lib/dataConverter.ts:34-83 | a valid string always decodes, to half as many bytes as it has non-whitespace characters |
| DataConverter.DecodableNotValid | lib/dataConverter.ts:38 | the converse fails: `zz01` decodes, but is not valid |
| DataConverter.RenderingIsValid | lib/dataConverter.ts:63-83 | the rendering of one or more bytes is valid |
| DataConverter.BytesToText | lib/dataConverter.ts:13-29 | no bytes give `""`; otherwise the decoded text when it has no code point in the refused control ranges, else the hexadecimal rendering; the result never holds a refused code point |
| DataConverter.SentTextDisplay | lib/dataConverter.ts:4-29 | text encoded and displayed again comes back unchanged, less a leading U+FEFF that the decoder (made without `ignoreBOM`) drops, unless it holds a refused code point, in which case it shows as hexadecimal |

## Left out

- Error messages: every `throw` becomes a constructor of an error datatype carrying the same data (line number, offending text or value, open-loop count, command index). A carried value matches JavaScript's only below 2^53, as the line on doubles below says. The Chinese message texts are not modelled.
- `async`/`await` and the `DELAY` timer: a run records `Wait(value)` events and does not model time. `ScriptExecutor.WaitLength` gives the `parseInt` a timer would receive. A `NaN` timer length, which `setTimeout` treats as 0, cannot arise from parser output.
- `sendCallback`: its only effect on the run is whether it resolves or rejects. That answer comes from the environment's `failures` set, by step number. A rejection is modelled as the step error `SendFailed` at that index.
- An exception thrown by `shouldStop` or `onProgress` is not modelled: both are called outside the `try`, so such an exception would end the run untagged by a command index, and the model's callbacks cannot fail.
- `shouldStop` and `onProgress` being optional: an absent `shouldStop` is an empty `stops` set. Progress events are always recorded; an absent `onProgress` means nobody sees them.
- The `default` branch of the executor's `switch` is not modelled, because the command datatype has exactly the four kinds.
- `null`/`undefined` inputs (`!script`, `!commands`, `!bytes`, a command without `value`) are not modelled, because the Dafny types cannot express them. A missing `value` behaves as `""`, and the model's `""` takes the same branches.
- JavaScript numbers are doubles; the model's are unbounded integers. The two agree on every value below 2^53. Above that, `parseInt` rounds, and past about 1.8e308 it gives `Infinity`. Such an argument is still refused as too large, so which scripts are accepted does not change. Only the value carried by `DelayTooLarge` and `LoopCountTooLarge` would differ from the value JavaScript reports.
- JsText.ParseIntDecimal: holds in JavaScript only below 2^53 for `parseInt` and below 10^21 for `toString()`. The parser only stores delays up to 60000, far inside that range.
- Non-integer loop counts are not modelled: the parser only produces integers. A `-0` from `parseInt` reads as 0, because both compare and print the same.
- JavaScript strings are UTF-16. The model's strings are sequences of Unicode scalar values, so lone surrogates cannot be expressed. `trim`, `\s` and `substring` act per code point; the keywords and offsets involved are all ASCII.
- `TextDecoder` is a parameter (`decode`) of `DataConverter.BytesToText`. Its non-fatal replacement of bad sequences is not modelled. Its removal of a leading U+FEFF is modelled only on encoder output, as the requirement of `DataConverter.SentTextDisplay`. The `catch` branch of `bytesToText` is left out, since a non-fatal decoder does not throw. `Utf8.Decode` is a strict decoder, used only to state the round trip of `TextEncoder`.
- Everything outside the two files is out of scope: serial I/O, the React hooks and components, persistence, `formatTimestamp` (clock and time zone) and `formatBytes` (floating point).
