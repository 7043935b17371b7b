/** The byte codec of lib/dataConverter.ts: text to bytes, bytes to display
    text, hexadecimal text to bytes and back, and the hexadecimal input check. */
module DataConverter {
  import opened Wrappers
  import opened JsText
  import opened Utf8

  /** Why `hexToBytes` throws. */
  datatype HexError =
    | EmptyHex                 // no hexadecimal digit in a non-empty input
    | OddLength                // an odd number of hexadecimal digits
    | InvalidPair(pair: string) // `parseInt(pair, 16)` gave NaN

  /** The class `[0-9A-Fa-f]`. */
  predicate IsHexDigit(c: char) {
    '0' <= c <= '9' || 'a' <= c <= 'f' || 'A' <= c <= 'F'
  }

  lemma HexDigitIsRadix16(c: char)
    ensures IsHexDigit(c) <==> IsDigitIn(c, 16)
  {
  }

  // ---------------------------------------------------------------------------
  // textToBytes
  // ---------------------------------------------------------------------------

  /** `textToBytes`: the empty text gives no bytes, any other text its UTF-8
      encoding (what `TextEncoder.encode` returns). */
  function TextToBytes(text: string): (r: seq<uint8>)
    ensures text == "" ==> r == []
    ensures (forall i :: 0 <= i < |text| ==> text[i] as int < 0x80) ==>
              |r| == |text| && forall i :: 0 <= i < |text| ==> r[i] == text[i] as int
  {
    if text == "" then [] else Encode(text)
  }

  /** Every text can be recovered from its bytes. */
  lemma TextToBytesInjective(text: string)
    ensures Decode(TextToBytes(text)) == Some(text)
  {
    DecodeEncode(text);
  }

  // ---------------------------------------------------------------------------
  // bytesToHex
  // ---------------------------------------------------------------------------

  /** The upper-case hexadecimal digit for `d`. */
  function UpperHexDigit(d: nat): (c: char)
    requires d < 16
    ensures IsHexDigit(c) && DigitValue(c) == d
    ensures !('a' <= c <= 'z')
  {
    if d < 10 then ('0' as int + d) as char else ('A' as int + d - 10) as char
  }

  /** One byte in base 16, zero-padded to two digits and upper-cased: two
      upper-case digits whose value is `b`. */
  function ByteToHex(b: uint8): (s: string)
    ensures |s| == 2 && IsHexDigit(s[0]) && IsHexDigit(s[1])
    ensures DigitValue(s[0]) * 16 + DigitValue(s[1]) == b
  {
    [UpperHexDigit(b / 16), UpperHexDigit(b % 16)]
  }

  /** `bytesToHex`: each byte as two upper-case digits, separated by single
      spaces. */
  function BytesToHex(bytes: seq<uint8>): (r: string)
    ensures |bytes| == 0 ==> r == ""
    ensures |bytes| > 0 ==> |r| == 3 * |bytes| - 1
  {
    if |bytes| == 0 then ""
    else if |bytes| == 1 then ByteToHex(bytes[0])
    else ByteToHex(bytes[0]) + " " + BytesToHex(bytes[1..])
  }

  /** Where everything sits in a rendering: byte `i` at positions `3i` and
      `3i + 1`, most significant digit first, and a space after every byte
      but the last. */
  lemma {:induction false} BytesToHexLayout(bytes: seq<uint8>)
    ensures forall i :: 0 <= i < |bytes| ==>
              && BytesToHex(bytes)[3 * i] == UpperHexDigit(bytes[i] / 16)
              && BytesToHex(bytes)[3 * i + 1] == UpperHexDigit(bytes[i] % 16)
    ensures forall i :: 0 <= i < |bytes| - 1 ==> BytesToHex(bytes)[3 * i + 2] == ' '
  {
    if |bytes| > 1 {
      var rest := BytesToHex(bytes[1..]);
      var r := BytesToHex(bytes);
      BytesToHexLayout(bytes[1..]);
      assert r == ByteToHex(bytes[0]) + " " + rest;
      forall i | 1 <= i < |bytes|
        ensures r[3 * i] == UpperHexDigit(bytes[i] / 16) && r[3 * i + 1] == UpperHexDigit(bytes[i] % 16)
        ensures i < |bytes| - 1 ==> r[3 * i + 2] == ' '
      {
        assert bytes[i] == bytes[1..][i - 1];
        assert r[3 * i] == rest[3 * (i - 1)];
        assert r[3 * i + 1] == rest[3 * (i - 1) + 1];
        if i < |bytes| - 1 {
          assert r[3 * i + 2] == rest[3 * (i - 1) + 2];
        }
      }
    }
  }

  predicate HexOrSpace(s: string) {
    forall j :: 0 <= j < |s| ==> IsHexDigit(s[j]) || s[j] == ' '
  }

  /** Every character of a rendering is a hexadecimal digit or a space. */
  lemma {:induction false} BytesToHexAlphabet(bytes: seq<uint8>)
    ensures HexOrSpace(BytesToHex(bytes))
  {
    if |bytes| > 1 {
      BytesToHexAlphabet(bytes[1..]);
      var head := ByteToHex(bytes[0]) + " ";
      assert HexOrSpace(head);
      assert BytesToHex(bytes) == head + BytesToHex(bytes[1..]);
    }
  }

  /** The digits of a rendering with the spaces dropped: the bytes' digit
      pairs, concatenated. */
  function HexDigitsOf(bytes: seq<uint8>): (r: string)
    ensures |r| == 2 * |bytes|
  {
    if |bytes| == 0 then "" else ByteToHex(bytes[0]) + HexDigitsOf(bytes[1..])
  }

  // ---------------------------------------------------------------------------
  // hexToBytes
  // ---------------------------------------------------------------------------

  /** The first cleaning step of `hexToBytes`, which deletes every character
      that is not a hexadecimal digit: the hexadecimal digits of `s`, in
      order. */
  function KeepHexDigits(s: string): (r: string)
    ensures |r| <= |s|
    ensures forall i :: 0 <= i < |r| ==> IsHexDigit(r[i])
    ensures r == [] <==> forall i :: 0 <= i < |s| ==> !IsHexDigit(s[i])
    ensures (forall i :: 0 <= i < |s| ==> IsHexDigit(s[i])) ==> r == s
  {
    if |s| == 0 then ""
    else if IsHexDigit(s[0]) then [s[0]] + KeepHexDigits(s[1..])
    else KeepHexDigits(s[1..])
  }

  lemma {:induction false} KeepHexDigitsAppend(a: string, b: string)
    ensures KeepHexDigits(a + b) == KeepHexDigits(a) + KeepHexDigits(b)
  {
    if |a| > 0 {
      assert (a + b)[0] == a[0] && (a + b)[1..] == a[1..] + b;
      KeepHexDigitsAppend(a[1..], b);
    } else {
      assert a + b == b;
    }
  }

  /** The value of the hexadecimal pair `hi lo`. */
  function PairValue(hi: char, lo: char): (v: nat)
    ensures IsHexDigit(hi) && IsHexDigit(lo) ==> v < 256
  {
    DigitValue(hi) * 16 + DigitValue(lo)
  }

  predicate AllHexDigits(s: string) {
    forall i :: 0 <= i < |s| ==> IsHexDigit(s[i])
  }

  /** `parseInt` reads a pair of hexadecimal digits in radix 16 as its value. */
  lemma ParsePair(pair: string)
    requires |pair| == 2 && AllHexDigits(pair)
    ensures ParseInt(pair, 16) == Some(PairValue(pair[0], pair[1]))
  {
    assert !IsWhitespace(pair[0]);
    assert LeadingWhitespace(pair) == 0;
    assert TrimStart(pair) == pair;
    assert !HasHexPrefix(pair);
    HexDigitIsRadix16(pair[0]);
    HexDigitIsRadix16(pair[1]);
    DigitPrefixAll(pair, 16);
    assert pair[..1] == [pair[0]];
    assert pair[..1][..0] == [];
    assert DigitsValue(pair[..1], 16) == DigitValue(pair[0]);
    assert DigitsValue(pair, 16) == PairValue(pair[0], pair[1]);
    assert LeadingDigits(pair, 16) == Some(PairValue(pair[0], pair[1]));
    assert ParseMagnitude(pair, 16) == LeadingDigits(pair, 16);
  }

  /** The loop of `hexToBytes` over the cleaned digits: the array has
      `⌊|cleaned| / 2⌋` bytes, pair `i` is read with `parseInt` in radix 16 and
      stored modulo 256 into byte `i`, and a pair that reads as NaN throws. */
  function DecodePairs(cleaned: string): (r: Result<seq<uint8>, HexError>)
    ensures r.Success? ==> 2 * |r.value| <= |cleaned| < 2 * |r.value| + 2
  {
    if |cleaned| < 2 then Success([])
    else
      var pair := cleaned[..2];
      match ParseInt(pair, 16)
      case None => Failure(InvalidPair(pair))
      case Some(v) =>
        match DecodePairs(cleaned[2..])
        case Failure(e) => Failure(e)
        case Success(rest) => Success([(v % 256) as uint8] + rest)
  }

  lemma DecodePairsCons(cleaned: string, v: int)
    requires |cleaned| >= 2
    requires ParseInt(cleaned[..2], 16) == Some(v)
    requires DecodePairs(cleaned[2..]).Success?
    ensures DecodePairs(cleaned) == Success([(v % 256) as uint8] + DecodePairs(cleaned[2..]).value)
  {
  }

  lemma {:induction false} DecodePairsSucceeds(cleaned: string)
    requires AllHexDigits(cleaned)
    ensures DecodePairs(cleaned).Success?
  {
    if |cleaned| >= 2 {
      ParsePair(cleaned[..2]);
      DecodePairsSucceeds(cleaned[2..]);
      DecodePairsCons(cleaned, PairValue(cleaned[0], cleaned[1]));
    }
  }

  /** On hexadecimal digits, the first byte is the value of the first pair. */
  lemma DecodePairsHead(cleaned: string)
    requires AllHexDigits(cleaned) && |cleaned| >= 2
    ensures AllHexDigits(cleaned[2..])
    ensures DecodePairs(cleaned).Success? && DecodePairs(cleaned[2..]).Success?
    ensures DecodePairs(cleaned).value
         == [PairValue(cleaned[0], cleaned[1]) as uint8] + DecodePairs(cleaned[2..]).value
  {
    var v := PairValue(cleaned[0], cleaned[1]);
    ParsePair(cleaned[..2]);
    DecodePairsSucceeds(cleaned[2..]);
    DecodePairsCons(cleaned, v);
    assert IsHexDigit(cleaned[0]) && IsHexDigit(cleaned[1]);
    var rest := DecodePairs(cleaned[2..]).value;
    ByteOfSmall(v);
    assert DecodePairs(cleaned).value == [(v % 256) as uint8] + rest;
  }

  lemma ByteOfSmall(v: nat)
    requires v < 256
    ensures (v % 256) as uint8 == v as uint8
  {
  }

  lemma {:induction false} DecodePairsAt(cleaned: string, k: nat)
    requires AllHexDigits(cleaned) && 2 * k + 2 <= |cleaned|
    ensures DecodePairs(cleaned).Success? && k < |DecodePairs(cleaned).value|
    ensures DecodePairs(cleaned).value[k] == PairValue(cleaned[2 * k], cleaned[2 * k + 1])
  {
    DecodePairsHead(cleaned);
    if k > 0 {
      DecodePairsAt(cleaned[2..], k - 1);
      LaterPair(cleaned, DecodePairs(cleaned).value, DecodePairs(cleaned[2..]).value, k);
    }
  }

  /** Byte `k` of one pair's byte followed by `rest` is byte `k - 1` of
      `rest`, the pair two characters further on. */
  lemma LaterPair(cleaned: string, r: seq<uint8>, rest: seq<uint8>, k: nat)
    requires 0 < k && 2 * k + 2 <= |cleaned| && k - 1 < |rest|
    requires IsHexDigit(cleaned[0]) && IsHexDigit(cleaned[1])
    requires r == [PairValue(cleaned[0], cleaned[1]) as uint8] + rest
    requires rest[k - 1] == PairValue(cleaned[2..][2 * (k - 1)], cleaned[2..][2 * (k - 1) + 1])
    ensures k < |r| && r[k] == PairValue(cleaned[2 * k], cleaned[2 * k + 1])
  {
    assert cleaned[2..][2 * (k - 1)] == cleaned[2 * k];
  }

  /** On hexadecimal digits the loop never throws, and byte `i` is the value
      of pair `i`. */
  lemma DecodePairsDigits(cleaned: string)
    requires AllHexDigits(cleaned)
    ensures DecodePairs(cleaned).Success?
    ensures forall i :: 0 <= i < |DecodePairs(cleaned).value| ==>
              DecodePairs(cleaned).value[i] == PairValue(cleaned[2 * i], cleaned[2 * i + 1])
  {
    DecodePairsSucceeds(cleaned);
    forall i | 0 <= i < |DecodePairs(cleaned).value|
      ensures DecodePairs(cleaned).value[i] == PairValue(cleaned[2 * i], cleaned[2 * i + 1])
    {
      DecodePairsAt(cleaned, i);
    }
  }

  /** `hexToBytes`: the empty input gives no bytes; otherwise it fails exactly
      when the input holds no hexadecimal digit or an odd number of them, and
      else yields one byte per pair of digits. */
  function HexToBytes(hex: string): (r: Result<seq<uint8>, HexError>)
    ensures hex == "" ==> r == Success([])
    ensures r.Failure? <==>
              hex != "" && (|KeepHexDigits(hex)| == 0 || |KeepHexDigits(hex)| % 2 == 1)
    ensures r.Failure? ==> r.error == (if |KeepHexDigits(hex)| == 0 then EmptyHex else OddLength)
    ensures r.Success? ==> 2 * |r.value| == |KeepHexDigits(hex)|
  {
    if hex == "" then Success([])
    else
      var cleaned := KeepHexDigits(hex);
      if |cleaned| == 0 then Failure(EmptyHex)
      else if |cleaned| % 2 != 0 then Failure(OddLength)
      else
        DecodePairsSucceeds(cleaned);
        var r := DecodePairs(cleaned);
        EvenLength(|cleaned|, |r.value|);
        r
  }

  /** An even length that holds `a` pairs and less than one more is exactly
      `a` pairs. */
  lemma EvenLength(n: nat, a: nat)
    ensures (2 * a) % 2 == 0
    ensures n % 2 == 0 && 2 * a <= n < 2 * a + 2 ==> n == 2 * a
  {
  }

  /** Byte `i` of a successful decoding is the value of the `i`-th pair of
      hexadecimal digits in the input, whatever else the input contains. */
  lemma HexToBytesValues(hex: string)
    requires HexToBytes(hex).Success?
    ensures var digits := KeepHexDigits(hex);
      forall i :: 0 <= i < |HexToBytes(hex).value| ==>
        HexToBytes(hex).value[i] == PairValue(digits[2 * i], digits[2 * i + 1])
  {
    if hex != "" {
      DecodePairsDigits(KeepHexDigits(hex));
    }
  }

  /** Dropping the spaces of a rendering leaves the digit pairs. */
  lemma {:induction false} KeepHexDigitsOfRendering(bytes: seq<uint8>)
    ensures KeepHexDigits(BytesToHex(bytes)) == HexDigitsOf(bytes)
  {
    if |bytes| == 1 {
      assert HexDigitsOf(bytes) == ByteToHex(bytes[0]) + "";
    } else if |bytes| > 1 {
      var head := ByteToHex(bytes[0]);
      var rest := BytesToHex(bytes[1..]);
      KeepHexDigitsOfRendering(bytes[1..]);
      KeepHexDigitsAppend(head + " ", rest);
      KeepHexDigitsAppend(head, " ");
      assert KeepHexDigits(" ") == "";
      assert KeepHexDigits(head) == head;
    }
  }

  /** Two digits in front of a decodable digit string add one byte. */
  lemma DecodePairsAppend(head: string, tail: string, rest: seq<uint8>)
    requires |head| == 2 && AllHexDigits(head) && DecodePairs(tail) == Success(rest)
    ensures DecodePairs(head + tail) == Success([PairValue(head[0], head[1])] + rest)
  {
    var d := head + tail;
    assert d[..2] == head && d[2..] == tail;
    ParsePair(head);
    DecodePairsCons(d, PairValue(head[0], head[1]));
  }

  lemma HexDigitsOfCons(bytes: seq<uint8>)
    requires |bytes| > 0
    ensures HexDigitsOf(bytes) == ByteToHex(bytes[0]) + HexDigitsOf(bytes[1..])
    ensures [bytes[0]] + bytes[1..] == bytes
  {
  }

  lemma {:induction false} DecodeDigitPairs(bytes: seq<uint8>)
    ensures DecodePairs(HexDigitsOf(bytes)) == Success(bytes)
  {
    if |bytes| > 0 {
      var head := ByteToHex(bytes[0]);
      DecodeDigitPairs(bytes[1..]);
      DecodePairsAppend(head, HexDigitsOf(bytes[1..]), bytes[1..]);
      HexDigitsOfCons(bytes);
    }
  }

  /** Round trip: reading back the hexadecimal rendering of any bytes,
      including none, gives the same bytes. */
  lemma HexRoundTrip(bytes: seq<uint8>)
    ensures HexToBytes(BytesToHex(bytes)) == Success(bytes)
  {
    if |bytes| > 0 {
      KeepHexDigitsOfRendering(bytes);
      DecodeDigitPairs(bytes);
      DecodeCleaned(BytesToHex(bytes), HexDigitsOf(bytes), bytes);
    }
  }

  lemma DecodeCleaned(hex: string, cleaned: string, bytes: seq<uint8>)
    requires hex != "" && KeepHexDigits(hex) == cleaned && |cleaned| == 2 * |bytes| > 0
    requires DecodePairs(cleaned) == Success(bytes)
    ensures HexToBytes(hex) == Success(bytes)
  {
    EvenLength(|cleaned|, |bytes|);
  }

  /** The NaN branch of `hexToBytes` is dead: after the alphabet filter every
      pair parses. */
  lemma HexToBytesNeverInvalidPair(hex: string)
    ensures !(HexToBytes(hex).Failure? && HexToBytes(hex).error.InvalidPair?)
  {
  }

  // ---------------------------------------------------------------------------
  // isValidHex
  // ---------------------------------------------------------------------------

  /** The cleaning step of `isValidHex`: every whitespace character deleted. */
  function RemoveWhitespace(s: string): (r: string)
    ensures |r| <= |s|
    ensures forall i :: 0 <= i < |r| ==> !IsWhitespace(r[i])
    ensures forall i :: 0 <= i < |r| ==> r[i] in s
  {
    if |s| == 0 then ""
    else if IsWhitespace(s[0]) then RemoveWhitespace(s[1..])
    else [s[0]] + RemoveWhitespace(s[1..])
  }

  /** `isValidHex`: the input is non-empty and, whitespace aside, an even,
      positive number of hexadecimal digits and nothing else. */
  function IsValidHex(hex: string): (r: bool)
    ensures r ==> hex != "" && |KeepHexDigits(hex)| > 0 && |KeepHexDigits(hex)| % 2 == 0
    ensures r <==> var w := RemoveWhitespace(hex); |w| > 0 && |w| % 2 == 0 && AllHexDigits(w)
  {
    if hex == "" then false
    else
      var cleaned := RemoveWhitespace(hex);
      if |cleaned| == 0 then false
      else if |cleaned| % 2 != 0 then false
      else
        (NonWhitespaceAreDigits(hex);
         AllHexDigits(cleaned))
  }

  /** When the non-whitespace characters are all hexadecimal digits, both
      filters keep the same characters. */
  lemma {:induction false} NonWhitespaceAreDigits(s: string)
    ensures AllHexDigits(RemoveWhitespace(s)) ==> KeepHexDigits(s) == RemoveWhitespace(s)
  {
    if |s| > 0 {
      NonWhitespaceAreDigits(s[1..]);
      if !IsWhitespace(s[0]) && AllHexDigits(RemoveWhitespace(s)) {
        assert RemoveWhitespace(s)[0] == s[0];
        assert RemoveWhitespace(s)[1..] == RemoveWhitespace(s[1..]);
      }
    }
  }

  /** Whatever `isValidHex` accepts, `hexToBytes` decodes, into half as many
      bytes as there are digits. */
  lemma ValidHexDecodes(hex: string)
    requires IsValidHex(hex)
    ensures HexToBytes(hex).Success?
    ensures 2 * |HexToBytes(hex).value| == |RemoveWhitespace(hex)|
  {
    NonWhitespaceAreDigits(hex);
  }

  /** The converse fails: `hexToBytes` drops characters `isValidHex` rejects. */
  lemma DecodableNotValid()
    ensures HexToBytes("zz01").Success? && !IsValidHex("zz01")
  {
    var s := "zz01";
    assert !IsHexDigit('z') && !IsWhitespace('z');
    assert s[1..] == "z01" && s[2..] == "01";
    assert KeepHexDigits("01") == "01";
    assert KeepHexDigits(s) == "01";
    assert RemoveWhitespace(s)[0] == 'z';
  }

  /** Every non-empty hexadecimal rendering passes `isValidHex`. */
  lemma RenderingIsValid(bytes: seq<uint8>)
    requires |bytes| > 0
    ensures IsValidHex(BytesToHex(bytes))
  {
    var r := BytesToHex(bytes);
    KeepHexDigitsOfRendering(bytes);
    BytesToHexAlphabet(bytes);
    RemoveSpacesKeepsDigits(r);
    var d := HexDigitsOf(bytes);
    assert AllHexDigits(KeepHexDigits(r));
    ValidWhenDigits(r, d, |bytes|);
  }

  lemma ValidWhenDigits(hex: string, digits: string, n: nat)
    requires RemoveWhitespace(hex) == digits && AllHexDigits(digits)
    requires |digits| == 2 * n && n > 0
    ensures IsValidHex(hex)
  {
  }

  lemma {:induction false} RemoveSpacesKeepsDigits(s: string)
    requires HexOrSpace(s)
    ensures RemoveWhitespace(s) == KeepHexDigits(s)
  {
    if |s| > 0 {
      RemoveSpacesKeepsDigits(s[1..]);
    }
  }

  // ---------------------------------------------------------------------------
  // bytesToText
  // ---------------------------------------------------------------------------

  /** The code points `bytesToText` refuses to display: 0x00-0x08, 0x0B-0x0C,
      0x0E-0x1F and 0x7F-0x9F (tab, line feed and carriage return pass). */
  predicate IsControl(c: char) {
    var n := c as int;
    n <= 0x08 || (0x0B <= n <= 0x0C) || (0x0E <= n <= 0x1F) || (0x7F <= n <= 0x9F)
  }

  predicate HasControl(s: string) {
    exists i :: 0 <= i < |s| && IsControl(s[i])
  }

  /** `bytesToText`, with `decode` standing for the non-fatal UTF-8
      `TextDecoder`: no bytes give the empty text; otherwise the decoded text
      when it has no refused code point, else the hexadecimal rendering. The
      result never contains a refused code point. */
  function BytesToText(bytes: seq<uint8>, decode: seq<uint8> -> string): (r: string)
    ensures |bytes| == 0 ==> r == ""
    ensures |bytes| > 0 && !HasControl(decode(bytes)) ==> r == decode(bytes)
    ensures |bytes| > 0 && HasControl(decode(bytes)) ==> r == BytesToHex(bytes)
    ensures !HasControl(r)
  {
    if |bytes| == 0 then ""
    else
      var text := decode(bytes);
      if HasControl(text) then
        BytesToHexAlphabet(bytes);
        BytesToHex(bytes)
      else text
  }

  /** The byte order mark U+FEFF. */
  const Bom: char := 0xFEFF as char

  /** What the `TextDecoder` `bytesToText` creates gives back for the UTF-8
      encoding of `text`: the text, less a leading byte order mark, since that
      decoder is made without `ignoreBOM`. */
  function WithoutBom(text: string): string {
    if |text| > 0 && text[0] == Bom then text[1..] else text
  }

  /** Display of sent text: for a decoder that inverts UTF-8 encoding except
      that it drops a leading byte order mark, the bytes of a non-empty text
      display as that text, less such a mark, exactly when it has no refused
      code point, and as their hexadecimal rendering otherwise. */
  lemma SentTextDisplay(text: string, decode: seq<uint8> -> string)
    requires text != ""
    requires decode(Encode(text)) == WithoutBom(text)
    ensures !HasControl(text) ==> BytesToText(TextToBytes(text), decode) == WithoutBom(text)
    ensures HasControl(text) ==> BytesToText(TextToBytes(text), decode) == BytesToHex(TextToBytes(text))
    ensures text[0] != Bom && !HasControl(text) ==> BytesToText(TextToBytes(text), decode) == text
  {
    assert |Encode(text)| >= |text| > 0;
    var first := text[0];
    assert !IsControl(Bom);
    if first == Bom {
      var d := text[1..];
      assert HasControl(text) ==> HasControl(d) by {
        if HasControl(text) {
          var i :| 0 <= i < |text| && IsControl(text[i]);
          assert i > 0 && d[i - 1] == text[i];
        }
      }
      assert HasControl(d) ==> HasControl(text) by {
        if HasControl(d) {
          var i :| 0 <= i < |d| && IsControl(d[i]);
          assert text[i + 1] == d[i];
        }
      }
    }
  }
}
