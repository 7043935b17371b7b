/** The JavaScript string primitives the script parser and the byte codec are
    built from: `String.prototype.trim`, `split('\n')`, `startsWith`, the
    `\s` character class, `parseInt` and `Number.prototype.toString()` on
    non-negative integers. Strings are sequences of Unicode scalar values. */
module JsText {
  import opened Wrappers

  /** ECMAScript WhiteSpace and LineTerminator code points: exactly what
      `trim` strips and what the regular-expression class `\s` matches. */
  predicate IsWhitespace(c: char) {
    var n := c as int;
    n == 0x09 || n == 0x0A || n == 0x0B || n == 0x0C || n == 0x0D || n == 0x20
    || n == 0xA0 || n == 0x1680 || (0x2000 <= n <= 0x200A)
    || n == 0x2028 || n == 0x2029 || n == 0x202F || n == 0x205F
    || n == 0x3000 || n == 0xFEFF
  }

  predicate AllWhitespace(s: string) {
    forall i :: 0 <= i < |s| ==> IsWhitespace(s[i])
  }

  predicate StartsWith(s: string, prefix: string) {
    |prefix| <= |s| && s[..|prefix|] == prefix
  }

  /** The number of whitespace characters `s` starts with. */
  function LeadingWhitespace(s: string): (k: nat)
    ensures k <= |s|
    ensures forall i :: 0 <= i < k ==> IsWhitespace(s[i])
    ensures k == |s| || !IsWhitespace(s[k])
  {
    if |s| > 0 && IsWhitespace(s[0]) then 1 + LeadingWhitespace(s[1..]) else 0
  }

  /** The number of whitespace characters `s` ends with. */
  function TrailingWhitespace(s: string): (k: nat)
    ensures k <= |s|
    ensures forall i :: |s| - k <= i < |s| ==> IsWhitespace(s[i])
    ensures k == |s| || !IsWhitespace(s[|s| - k - 1])
  {
    if |s| > 0 && IsWhitespace(s[|s| - 1]) then 1 + TrailingWhitespace(s[..|s| - 1]) else 0
  }

  /** Leading whitespace removed: the result is the suffix of `s` that starts
      at its first non-whitespace character. */
  function TrimStart(s: string): (r: string)
    ensures |r| <= |s| && r == s[|s| - |r|..]
    ensures forall i :: 0 <= i < |s| - |r| ==> IsWhitespace(s[i])
    ensures r == [] || !IsWhitespace(r[0])
  {
    s[LeadingWhitespace(s)..]
  }

  /** `String.prototype.trim`: the infix of `s` between its leading and its
      trailing whitespace. */
  function Trim(s: string): (r: string)
    ensures LeadingWhitespace(s) + |r| <= |s|
    ensures r == s[LeadingWhitespace(s)..LeadingWhitespace(s) + |r|]
    ensures forall i :: LeadingWhitespace(s) + |r| <= i < |s| ==> IsWhitespace(s[i])
    ensures r == [] <==> AllWhitespace(s)
    ensures r != [] ==> !IsWhitespace(r[0]) && !IsWhitespace(r[|r| - 1])
  {
    var a := LeadingWhitespace(s);
    if a == |s| then []
    else
      var b := TrailingWhitespace(s);
      var first := s[a];
      assert b >= |s| - a ==> IsWhitespace(first);
      s[a..|s| - b]
  }

  /** Text that neither starts nor ends with whitespace is its own trim. */
  lemma TrimUnchanged(s: string)
    requires s != [] && !IsWhitespace(s[0]) && !IsWhitespace(s[|s| - 1])
    ensures Trim(s) == s
  {
    assert LeadingWhitespace(s) == 0;
    var r := Trim(s);
    var last := s[|s| - 1];
    assert |r| < |s| ==> IsWhitespace(last);
  }

  /** `s.split('\n')`: the pieces between line feeds, at least one. */
  function Split(s: string): (r: seq<string>)
    ensures |r| >= 1
    ensures forall k :: 0 <= k < |r| ==> '\n' !in r[k]
  {
    if |s| == 0 then [""]
    else
      var rest := Split(s[1..]);
      if s[0] == '\n' then [""] + rest
      else [[s[0]] + rest[0]] + rest[1..]
  }

  /** `lines.join('\n')`. */
  function Join(lines: seq<string>): string
  {
    if |lines| == 0 then ""
    else if |lines| == 1 then lines[0]
    else lines[0] + "\n" + Join(lines[1..])
  }

  lemma {:induction false} JoinSplit(s: string)
    ensures Join(Split(s)) == s
  {
    if |s| > 0 {
      JoinSplit(s[1..]);
      var rest := Split(s[1..]);
      if s[0] == '\n' {
        assert Split(s) == [""] + rest;
        assert Join(Split(s)) == "" + "\n" + Join(rest);
      } else {
        var r := Split(s);
        assert r == [[s[0]] + rest[0]] + rest[1..];
        if |rest| == 1 {
          assert Join(r) == [s[0]] + rest[0];
          assert Join(rest) == rest[0];
        } else {
          assert r[1..] == rest[1..];
          assert Join(r) == [s[0]] + rest[0] + "\n" + Join(rest[1..]);
          assert Join(rest) == rest[0] + "\n" + Join(rest[1..]);
        }
      }
    }
  }

  /** Prepending text without line feeds extends the first piece only. */
  lemma {:induction false} SplitPrefix(a: string, t: string)
    requires '\n' !in a
    ensures Split(a + t) == [a + Split(t)[0]] + Split(t)[1..]
  {
    if |a| > 0 {
      SplitPrefix(a[1..], t);
      assert (a + t)[1..] == a[1..] + t;
      assert (a + t)[0] == a[0];
      assert [a[0]] + (a[1..] + Split(t)[0]) == a + Split(t)[0];
    } else {
      assert a + t == t;
      assert a + Split(t)[0] == Split(t)[0];
      assert Split(t) == [Split(t)[0]] + Split(t)[1..];
    }
  }

  lemma {:induction false} SplitJoin(lines: seq<string>)
    requires |lines| >= 1
    requires forall k :: 0 <= k < |lines| ==> '\n' !in lines[k]
    ensures Split(Join(lines)) == lines
  {
    if |lines| == 1 {
      SplitPrefix(lines[0], "");
      assert lines[0] + "" == lines[0];
      assert Split("") == [""];
    } else {
      var rest := Join(lines[1..]);
      SplitJoin(lines[1..]);
      SplitPrefix(lines[0], "\n" + rest);
      assert ("\n" + rest)[1..] == rest;
      assert Split("\n" + rest) == [""] + Split(rest);
      assert Join(lines) == lines[0] + ("\n" + rest);
      assert lines[0] + "" == lines[0];
      assert [lines[0]] + lines[1..] == lines;
    }
  }

  // ---------------------------------------------------------------------------
  // parseInt (ECMA-262, section 19.2.5 "parseInt ( string, radix )")
  // ---------------------------------------------------------------------------

  /** The value of `c` as a digit in radices up to 36 (`0-9`, then `a-z` or
      `A-Z` for 10..35), or 36 when `c` is no digit at all. */
  function DigitValue(c: char): (v: nat)
    ensures v <= 36
    ensures v < 10 <==> '0' <= c <= '9'
  {
    if '0' <= c <= '9' then c as int - '0' as int
    else if 'a' <= c <= 'z' then c as int - 'a' as int + 10
    else if 'A' <= c <= 'Z' then c as int - 'A' as int + 10
    else 36
  }

  predicate IsDigitIn(c: char, radix: nat) {
    DigitValue(c) < radix
  }

  /** The longest prefix of `s` made of radix-`radix` digits. */
  function DigitPrefix(s: string, radix: nat): (z: string)
    ensures |z| <= |s| && z == s[..|z|]
    ensures forall i :: 0 <= i < |z| ==> IsDigitIn(z[i], radix)
    ensures |z| < |s| ==> !IsDigitIn(s[|z|], radix)
  {
    if |s| > 0 && IsDigitIn(s[0], radix) then [s[0]] + DigitPrefix(s[1..], radix) else ""
  }

  /** The mathematical value of a digit string, most significant digit first. */
  function DigitsValue(z: string, radix: nat): nat
  {
    if |z| == 0 then 0
    else DigitsValue(z[..|z| - 1], radix) * radix + DigitValue(z[|z| - 1])
  }

  /** The value of the longest radix-`radix` digit prefix of `s`, or no
      number when that prefix is empty. */
  function LeadingDigits(s: string, radix: nat): Option<nat>
  {
    var z := DigitPrefix(s, radix);
    if |z| == 0 then None else Some(DigitsValue(z, radix))
  }

  predicate HasHexPrefix(s: string) {
    |s| >= 2 && s[0] == '0' && (s[1] == 'x' || s[1] == 'X')
  }

  /** `parseInt` after the sign: radix 0 (absent) and 16 drop a `0x`/`0X`
      prefix and read hexadecimal; otherwise radix 0 reads decimal. */
  function ParseMagnitude(s: string, radix: nat): Option<nat>
  {
    if (radix == 0 || radix == 16) && HasHexPrefix(s) then LeadingDigits(s[2..], 16)
    else LeadingDigits(s, if radix == 0 then 10 else radix)
  }

  /** `parseInt(input, radix)`, with `radix == 0` standing for an absent radix
      and `None` for `NaN`: leading whitespace is skipped, then one optional
      sign, then the magnitude. */
  function ParseInt(input: string, radix: int): (r: Option<int>)
  {
    if radix != 0 && (radix < 2 || radix > 36) then None
    else
      var s := TrimStart(input);
      if |s| > 0 && s[0] == '-' then
        match ParseMagnitude(s[1..], radix)
        case None => None
        case Some(m) => Some(-(m as int))
      else if |s| > 0 && s[0] == '+' then
        match ParseMagnitude(s[1..], radix)
        case None => None
        case Some(m) => Some(m)
      else
        match ParseMagnitude(s, radix)
        case None => None
        case Some(m) => Some(m)
  }

  // ---------------------------------------------------------------------------
  // Number.prototype.toString() on non-negative integers below 10^21, where
  // it writes plain decimal digits
  // ---------------------------------------------------------------------------

  function DecimalDigit(d: nat): (c: char)
    requires d < 10
    ensures '0' <= c <= '9' && DigitValue(c) == d
  {
    ('0' as int + d) as char
  }

  /** The shortest decimal rendering of `n`: what `toString()` gives for an
      integer below 10^21 (from there on it switches to exponent notation). */
  function NatToDecimal(n: nat): (s: string)
    ensures |s| >= 1
    ensures forall i :: 0 <= i < |s| ==> '0' <= s[i] <= '9'
    ensures s[0] == '0' ==> n == 0 && |s| == 1
  {
    if n < 10 then [DecimalDigit(n)] else NatToDecimal(n / 10) + [DecimalDigit(n % 10)]
  }

  lemma {:induction false} DecimalValue(n: nat)
    ensures DigitsValue(NatToDecimal(n), 10) == n
  {
    var s := NatToDecimal(n);
    if n < 10 {
      assert s[..0] == [];
    } else {
      DecimalValue(n / 10);
      assert s[..|s| - 1] == NatToDecimal(n / 10);
    }
  }

  lemma DigitPrefixAll(s: string, radix: nat)
    requires forall i :: 0 <= i < |s| ==> IsDigitIn(s[i], radix)
    ensures DigitPrefix(s, radix) == s
  {
  }

  /** Rendering a number in decimal and reading it back with `parseInt` gives
      the number again: the parser stores `DELAY` values as strings and the
      executor reads them this way. */
  lemma ParseIntDecimal(n: nat)
    ensures ParseInt(NatToDecimal(n), 0) == Some(n)
  {
    var s := NatToDecimal(n);
    assert !IsWhitespace(s[0]);
    assert TrimStart(s) == s;
    assert s[0] != '-' && s[0] != '+';
    assert !HasHexPrefix(s);
    DigitPrefixAll(s, 10);
    DecimalValue(n);
    assert LeadingDigits(s, 10) == Some(n);
    assert ParseMagnitude(s, 0) == Some(n);
  }
}
