/** The command list that lib/scriptParser.ts produces and executes
    (`ScriptCommand` of types/serial.ts), and the loop nesting of such a list:
    when a list is balanced, where each loop's `END` is, and which loops
    enclose a position. */
module ScriptCommands {
  import opened Wrappers

  /** One script command. A missing `value` is the empty string and a missing
      `loopCount` is 0: the executor treats both as absent. */
  datatype ScriptCommand =
    | Send(value: string)
    | Delay(value: string)
    | LoopStart(loopCount: int)
    | LoopEnd

  /** The frame count the executor pushes for `LOOP_START`: the loop count,
      with 0 (falsy) replaced by 1. */
  function LoopCount(c: int): int {
    if c == 0 then 1 else c
  }

  /** How many times the executor runs a loop body: the frame's `current`
      counts finished passes and the loop exits once it reaches the count, so
      a body runs at least once. */
  function Iterations(c: int): (n: nat)
    ensures n >= 1
    ensures n == 1 <==> c <= 1
    ensures c >= 1 ==> n == c
  {
    if LoopCount(c) > 1 then LoopCount(c) else 1
  }

  // ---------------------------------------------------------------------------
  // Balance, read left to right
  // ---------------------------------------------------------------------------

  /** `cs`, entered with `open` loops already open, never ends a loop that is
      not open and leaves none open: the check the parser's loop stack makes. */
  predicate Closes(cs: seq<ScriptCommand>, open: nat) {
    if |cs| == 0 then open == 0
    else match cs[0]
      case LoopStart(_) => Closes(cs[1..], open + 1)
      case LoopEnd => open > 0 && Closes(cs[1..], open - 1)
      case _ => Closes(cs[1..], open)
  }

  predicate Balanced(cs: seq<ScriptCommand>) {
    Closes(cs, 0)
  }

  /** The loops still open after `cs`, entered with `open` open, or `None`
      when `cs` ends a loop that is not open. */
  function DepthAfter(cs: seq<ScriptCommand>, open: nat): (r: Option<nat>)
    ensures r.Some? ==> r.value + Ends(cs) == open + Starts(cs)
  {
    if |cs| == 0 then Some(open)
    else match cs[0]
      case LoopStart(_) => DepthAfter(cs[1..], open + 1)
      case LoopEnd => if open == 0 then None else DepthAfter(cs[1..], open - 1)
      case _ => DepthAfter(cs[1..], open)
  }

  /** Balance is reaching depth 0 without ever going below it. */
  lemma {:induction false} ClosesIsDepthZero(cs: seq<ScriptCommand>, open: nat)
    ensures Closes(cs, open) <==> DepthAfter(cs, open) == Some(0)
  {
    if |cs| > 0 {
      match cs[0]
      case LoopStart(_) => ClosesIsDepthZero(cs[1..], open + 1);
      case LoopEnd => if open > 0 { ClosesIsDepthZero(cs[1..], open - 1); }
      case _ => ClosesIsDepthZero(cs[1..], open);
    }
  }

  function Starts(cs: seq<ScriptCommand>): nat {
    if |cs| == 0 then 0 else (if cs[0].LoopStart? then 1 else 0) + Starts(cs[1..])
  }

  function Ends(cs: seq<ScriptCommand>): nat {
    if |cs| == 0 then 0 else (if cs[0].LoopEnd? then 1 else 0) + Ends(cs[1..])
  }

  /** The counting form of balance: in every prefix the ends do not outnumber
      the starts (plus the loops already open), and in the whole list they
      match exactly. */
  predicate CountsBalance(cs: seq<ScriptCommand>, open: nat) {
    && (forall k :: 0 <= k <= |cs| ==> Ends(cs[..k]) <= Starts(cs[..k]) + open)
    && Ends(cs) == Starts(cs) + open
  }

  lemma PrefixOfTail(cs: seq<ScriptCommand>, k: nat)
    requires 1 <= k <= |cs|
    ensures Starts(cs[..k]) == (if cs[0].LoopStart? then 1 else 0) + Starts(cs[1..][..k - 1])
    ensures Ends(cs[..k]) == (if cs[0].LoopEnd? then 1 else 0) + Ends(cs[1..][..k - 1])
  {
    assert cs[..k][1..] == cs[1..][..k - 1];
  }

  /** The two readings of balance agree. */
  lemma {:induction false} ClosesIffCounts(cs: seq<ScriptCommand>, open: nat)
    ensures Closes(cs, open) <==> CountsBalance(cs, open)
  {
    if |cs| == 0 {
      assert cs[..0] == cs;
    } else {
      var d := match cs[0] case LoopStart(_) => open + 1 case LoopEnd => open - 1 case _ => open;
      if cs[0].LoopEnd? && open == 0 {
        PrefixOfTail(cs, 1);
        assert cs[1..][..0] == [];
        assert !CountsBalance(cs, open);
      } else {
        ClosesIffCounts(cs[1..], d);
        assert Closes(cs, open) == Closes(cs[1..], d);
        if CountsBalance(cs, open) {
          forall k | 0 <= k <= |cs| - 1
            ensures Ends(cs[1..][..k]) <= Starts(cs[1..][..k]) + d
          {
            PrefixOfTail(cs, k + 1);
          }
          assert cs[..|cs|] == cs;
          PrefixOfTail(cs, |cs|);
          assert cs[1..][..|cs| - 1] == cs[1..];
        }
        if CountsBalance(cs[1..], d) {
          forall k | 0 <= k <= |cs|
            ensures Ends(cs[..k]) <= Starts(cs[..k]) + open
          {
            if k > 0 {
              PrefixOfTail(cs, k);
            }
          }
        }
      }
    }
  }

  // ---------------------------------------------------------------------------
  // Balance over a stretch of one list
  // ---------------------------------------------------------------------------

  /** `Closes` for the stretch `cs[i..j]` of a list the executor indexes. */
  predicate Nested(cs: seq<ScriptCommand>, i: nat, j: nat, open: nat)
    requires i <= j <= |cs|
    decreases j - i
  {
    if i == j then open == 0
    else match cs[i]
      case LoopStart(_) => Nested(cs, i + 1, j, open + 1)
      case LoopEnd => open > 0 && Nested(cs, i + 1, j, open - 1)
      case _ => Nested(cs, i + 1, j, open)
  }

  lemma {:induction false} NestedIsCloses(cs: seq<ScriptCommand>, i: nat, j: nat, open: nat)
    requires i <= j <= |cs|
    ensures Nested(cs, i, j, open) <==> Closes(cs[i..j], open)
    decreases j - i
  {
    if i < j {
      assert cs[i..j][1..] == cs[i + 1..j];
      assert cs[i..j][0] == cs[i];
      match cs[i]
      case LoopStart(_) => NestedIsCloses(cs, i + 1, j, open + 1);
      case LoopEnd => if open > 0 { NestedIsCloses(cs, i + 1, j, open - 1); }
      case _ => NestedIsCloses(cs, i + 1, j, open);
    }
  }

  /** The `END` that closes the loop open around `cs[i..]`, when `open` more
      loops were opened since: it splits the stretch into the rest of the body
      and what follows the loop, both balanced. */
  function MatchingEnd(cs: seq<ScriptCommand>, i: nat, j: nat, open: nat): (k: nat)
    requires i <= j <= |cs| && Nested(cs, i, j, open + 1)
    ensures i <= k < j && cs[k] == LoopEnd
    ensures Nested(cs, i, k, open) && Nested(cs, k + 1, j, 0)
    decreases j - i
  {
    match cs[i]
    case LoopStart(_) => MatchingEnd(cs, i + 1, j, open + 1)
    case LoopEnd => if open == 0 then i else MatchingEnd(cs, i + 1, j, open - 1)
    case _ => MatchingEnd(cs, i + 1, j, open)
  }

  // ---------------------------------------------------------------------------
  // Enclosing loops
  // ---------------------------------------------------------------------------

  /** Removes the innermost open loop, if any. */
  function Pop(stack: seq<nat>): (r: seq<nat>)
    ensures |stack| > 0 ==> r == stack[..|stack| - 1]
    ensures |stack| == 0 ==> r == []
  {
    if |stack| == 0 then [] else stack[..|stack| - 1]
  }

  /** The iteration counts of the loops still open after reading `cs[i..p]`
      on top of `stack`, outermost first. */
  function OpenAt(cs: seq<ScriptCommand>, i: nat, p: nat, stack: seq<nat>): seq<nat>
    requires i <= p <= |cs|
    decreases p - i
  {
    if i == p then stack
    else match cs[i]
      case LoopStart(c) => OpenAt(cs, i + 1, p, stack + [Iterations(c)])
      case LoopEnd => OpenAt(cs, i + 1, p, Pop(stack))
      case _ => OpenAt(cs, i + 1, p, stack)
  }

  function Product(s: seq<nat>): nat {
    if |s| == 0 then 1 else s[0] * Product(s[1..])
  }

  lemma {:induction false} ProductAppend(a: seq<nat>, b: seq<nat>)
    ensures Product(a + b) == Product(a) * Product(b)
  {
    if |a| > 0 {
      assert (a + b)[1..] == a[1..] + b;
      ProductAppend(a[1..], b);
    } else {
      assert a + b == b;
    }
  }

  /** Popping a stack that holds more than `base` leaves `base` in place. */
  lemma PopAbove(base: seq<nat>, stack: seq<nat>)
    requires |stack| > 0
    ensures Pop(base + stack) == base + Pop(stack)
  {
    assert (base + stack)[..|base + stack| - 1] == base + stack[..|stack| - 1];
  }

  /** Reading a stretch that never ends more loops than `stack` holds beyond
      `base` leaves `base` in place underneath. */
  lemma {:induction false} OpenAtBase(cs: seq<ScriptCommand>, i: nat, p: nat, j: nat,
                                      open: nat, base: seq<nat>, stack: seq<nat>)
    requires i <= p <= j <= |cs| && Nested(cs, i, j, open) && |stack| == open
    ensures OpenAt(cs, i, p, base + stack) == base + OpenAt(cs, i, p, stack)
    decreases p - i
  {
    if i < p {
      match cs[i]
      case LoopStart(c) =>
        assert base + stack + [Iterations(c)] == base + (stack + [Iterations(c)]);
        OpenAtBase(cs, i + 1, p, j, open + 1, base, stack + [Iterations(c)]);
      case LoopEnd =>
        PopAbove(base, stack);
        OpenAtBase(cs, i + 1, p, j, open - 1, base, Pop(stack));
      case _ =>
        OpenAtBase(cs, i + 1, p, j, open, base, stack);
    }
  }

  /** A balanced stretch leaves no loop open. */
  lemma {:induction false} OpenAtBalanced(cs: seq<ScriptCommand>, i: nat, j: nat, open: nat, stack: seq<nat>)
    requires i <= j <= |cs| && Nested(cs, i, j, open) && |stack| == open
    ensures OpenAt(cs, i, j, stack) == []
    decreases j - i
  {
    if i < j {
      match cs[i]
      case LoopStart(c) => OpenAtBalanced(cs, i + 1, j, open + 1, stack + [Iterations(c)]);
      case LoopEnd => OpenAtBalanced(cs, i + 1, j, open - 1, Pop(stack));
      case _ => OpenAtBalanced(cs, i + 1, j, open, stack);
    }
  }

  /** Reading in two pieces is reading the whole. */
  lemma {:induction false} OpenAtSplit(cs: seq<ScriptCommand>, i: nat, q: nat, p: nat, stack: seq<nat>)
    requires i <= q <= p <= |cs|
    ensures OpenAt(cs, i, p, stack) == OpenAt(cs, q, p, OpenAt(cs, i, q, stack))
    decreases q - i
  {
    if i < q {
      match cs[i]
      case LoopStart(c) => OpenAtSplit(cs, i + 1, q, p, stack + [Iterations(c)]);
      case LoopEnd => OpenAtSplit(cs, i + 1, q, p, Pop(stack));
      case _ => OpenAtSplit(cs, i + 1, q, p, stack);
    }
  }

  /** Inside a loop body, the enclosing loops are the loop itself and those
      enclosing the body's first command. */
  lemma OpenInsideLoop(cs: seq<ScriptCommand>, i: nat, p: nat, j: nat)
    requires i < p <= j <= |cs| && cs[i].LoopStart? && Nested(cs, i + 1, j, 1)
    requires p <= MatchingEnd(cs, i + 1, j, 0)
    ensures OpenAt(cs, i, p, []) == [Iterations(cs[i].loopCount)] + OpenAt(cs, i + 1, p, [])
  {
    var k := MatchingEnd(cs, i + 1, j, 0);
    var x := [Iterations(cs[i].loopCount)];
    OpenAtBase(cs, i + 1, p, k, 0, x, []);
    assert [] + x == x + [];
    assert OpenAt(cs, i, p, []) == OpenAt(cs, i + 1, p, [] + x);
  }

  /** After a loop's `END`, the loop no longer encloses anything. */
  lemma OpenAfterLoop(cs: seq<ScriptCommand>, i: nat, p: nat, j: nat)
    requires i < p <= j <= |cs| && cs[i].LoopStart? && Nested(cs, i + 1, j, 1)
    requires MatchingEnd(cs, i + 1, j, 0) < p
    ensures OpenAt(cs, i, p, []) == OpenAt(cs, MatchingEnd(cs, i + 1, j, 0) + 1, p, [])
  {
    var k := MatchingEnd(cs, i + 1, j, 0);
    var x := [Iterations(cs[i].loopCount)];
    assert [] + x == x;
    calc {
      OpenAt(cs, i, p, []);
      OpenAt(cs, i + 1, p, x);
      { OpenAtSplit(cs, i + 1, k, p, x); }
      OpenAt(cs, k, p, OpenAt(cs, i + 1, k, x));
      { OpenAtBase(cs, i + 1, k, k, 0, x, []);
        OpenAtBalanced(cs, i + 1, k, 0, []);
        assert x + [] == x; }
      OpenAt(cs, k, p, x);
      { assert Pop(x) == []; }
      OpenAt(cs, k + 1, p, []);
    }
  }
}
