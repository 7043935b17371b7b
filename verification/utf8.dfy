/** UTF-8 as defined in section 3 of RFC 3629: the encoding `TextEncoder`
    applies, and its strict inverse (the well-formed byte sequences of
    section 4 of RFC 3629 decode, nothing else does). */
module Utf8 {
  import opened Wrappers

  /** One element of a `Uint8Array`. */
  type uint8 = x: int | 0 <= x < 0x100

  /** A trailing byte `10xxxxxx`. */
  predicate IsTail(b: uint8) {
    0x80 <= b <= 0xBF
  }

  /** The bytes encoding one Unicode scalar value: one byte below U+0080, two
      below U+0800, three below U+10000, four above. */
  function EncodeChar(c: char): (r: seq<uint8>)
    ensures c as int < 0x80 ==> r == [c as int]
    ensures 0x80 <= c as int < 0x800 ==> |r| == 2
    ensures 0x800 <= c as int < 0x10000 ==> |r| == 3
    ensures 0x10000 <= c as int ==> |r| == 4
    ensures forall i :: 1 <= i < |r| ==> IsTail(r[i])
  {
    var cp := c as int;
    if cp < 0x80 then [cp]
    else if cp < 0x800 then [0xC0 + cp / 0x40, 0x80 + cp % 0x40]
    else if cp < 0x10000 then [0xE0 + cp / 0x1000, 0x80 + (cp / 0x40) % 0x40, 0x80 + cp % 0x40]
    else [0xF0 + cp / 0x40000, 0x80 + (cp / 0x1000) % 0x40, 0x80 + (cp / 0x40) % 0x40, 0x80 + cp % 0x40]
  }

  /** The encoding of a whole string: the encodings of its characters, in order. */
  function Encode(s: string): (r: seq<uint8>)
    ensures |r| >= |s|
    ensures (forall i :: 0 <= i < |s| ==> s[i] as int < 0x80) ==>
              |r| == |s| && forall i :: 0 <= i < |s| ==> r[i] == s[i] as int
  {
    if |s| == 0 then [] else EncodeChar(s[0]) + Encode(s[1..])
  }

  /** The scalar value and length of the well-formed sequence that `bs` starts
      with, following the `UTF8-char` rule of section 4 of RFC 3629. */
  function DecodeChar(bs: seq<uint8>): (r: Option<(char, nat)>)
    ensures r.Some? ==> 1 <= r.value.1 <= |bs| && r.value.1 <= 4
  {
    if |bs| == 0 then None
    else
      var b0 := bs[0] as int;
      if b0 < 0x80 then Some((b0 as char, 1))
      else if 0xC2 <= b0 <= 0xDF then
        if |bs| >= 2 && IsTail(bs[1]) then
          Some((((b0 - 0xC0) * 0x40 + (bs[1] as int - 0x80)) as char, 2))
        else None
      else if 0xE0 <= b0 <= 0xEF then
        if |bs| >= 3 && IsTail(bs[1]) && IsTail(bs[2])
           && (b0 != 0xE0 || bs[1] >= 0xA0) && (b0 != 0xED || bs[1] <= 0x9F) then
          Some((((b0 - 0xE0) * 0x1000 + (bs[1] as int - 0x80) * 0x40 + (bs[2] as int - 0x80)) as char, 3))
        else None
      else if 0xF0 <= b0 <= 0xF4 then
        if |bs| >= 4 && IsTail(bs[1]) && IsTail(bs[2]) && IsTail(bs[3])
           && (b0 != 0xF0 || bs[1] >= 0x90) && (b0 != 0xF4 || bs[1] <= 0x8F) then
          Some((((b0 - 0xF0) * 0x40000 + (bs[1] as int - 0x80) * 0x1000 + (bs[2] as int - 0x80) * 0x40 + (bs[3] as int - 0x80)) as char, 4))
        else None
      else None
  }

  /** Strict decoding: `None` unless all of `bs` is well-formed UTF-8. */
  function Decode(bs: seq<uint8>): Option<string>
    decreases |bs|
  {
    if |bs| == 0 then Some("")
    else
      match DecodeChar(bs)
      case None => None
      case Some((c, n)) =>
        match Decode(bs[n..])
        case None => None
        case Some(s) => Some([c] + s)
  }

  lemma EncodeTwoFields(cp: int)
    requires 0x80 <= cp < 0x800
    ensures var b0, b1 := 0xC0 + cp / 0x40, 0x80 + cp % 0x40;
      && 0xC2 <= b0 <= 0xDF && 0x80 <= b1 <= 0xBF
      && (b0 - 0xC0) * 0x40 + (b1 - 0x80) == cp
  {
  }

  lemma EncodeThreeFields(cp: int)
    requires 0x800 <= cp < 0x10000 && !(0xD800 <= cp < 0xE000)
    ensures var b0, b1, b2 := 0xE0 + cp / 0x1000, 0x80 + (cp / 0x40) % 0x40, 0x80 + cp % 0x40;
      && 0xE0 <= b0 <= 0xEF && 0x80 <= b1 <= 0xBF && 0x80 <= b2 <= 0xBF
      && (b0 != 0xE0 || b1 >= 0xA0) && (b0 != 0xED || b1 <= 0x9F)
      && (b0 - 0xE0) * 0x1000 + (b1 - 0x80) * 0x40 + (b2 - 0x80) == cp
  {
    var hi := cp / 0x40;
    assert cp == hi * 0x40 + cp % 0x40;
    assert hi == (cp / 0x1000) * 0x40 + hi % 0x40;
  }

  lemma EncodeFourFields(cp: int)
    requires 0x10000 <= cp < 0x110000
    ensures var b0, b1 := 0xF0 + cp / 0x40000, 0x80 + (cp / 0x1000) % 0x40;
      var b2, b3 := 0x80 + (cp / 0x40) % 0x40, 0x80 + cp % 0x40;
      && 0xF0 <= b0 <= 0xF4 && 0x80 <= b1 <= 0xBF && 0x80 <= b2 <= 0xBF && 0x80 <= b3 <= 0xBF
      && (b0 != 0xF0 || b1 >= 0x90) && (b0 != 0xF4 || b1 <= 0x8F)
      && (b0 - 0xF0) * 0x40000 + (b1 - 0x80) * 0x1000 + (b2 - 0x80) * 0x40 + (b3 - 0x80) == cp
  {
    var h2 := cp / 0x40;
    var h1 := cp / 0x1000;
    assert cp == h2 * 0x40 + cp % 0x40;
    assert h2 == h1 * 0x40 + h2 % 0x40;
    assert h1 == (cp / 0x40000) * 0x40 + h1 % 0x40;
  }

  lemma DecodeEncodeChar(c: char, rest: seq<uint8>)
    ensures DecodeChar(EncodeChar(c) + rest) == Some((c, |EncodeChar(c)|))
  {
    var cp := c as int;
    var bs := EncodeChar(c) + rest;
    if cp < 0x80 {
    } else if cp < 0x800 {
      EncodeTwoFields(cp);
      assert bs[0] == 0xC0 + cp / 0x40 && bs[1] == 0x80 + cp % 0x40;
    } else if cp < 0x10000 {
      EncodeThreeFields(cp);
      assert bs[0] == 0xE0 + cp / 0x1000;
      assert bs[1] == 0x80 + (cp / 0x40) % 0x40;
      assert bs[2] == 0x80 + cp % 0x40;
    } else {
      EncodeFourFields(cp);
      assert bs[0] == 0xF0 + cp / 0x40000;
      assert bs[1] == 0x80 + (cp / 0x1000) % 0x40;
      assert bs[2] == 0x80 + (cp / 0x40) % 0x40;
      assert bs[3] == 0x80 + cp % 0x40;
    }
  }

  /** Decoding undoes encoding. */
  lemma {:induction false} DecodeEncode(s: string)
    ensures Decode(Encode(s)) == Some(s)
  {
    if |s| > 0 {
      var e := EncodeChar(s[0]);
      DecodeEncodeChar(s[0], Encode(s[1..]));
      assert (e + Encode(s[1..]))[|e|..] == Encode(s[1..]);
      DecodeEncode(s[1..]);
      assert [s[0]] + s[1..] == s;
    }
  }

  lemma TwoByteFields(b0: int, b1: int)
    requires 0xC2 <= b0 <= 0xDF && 0x80 <= b1 <= 0xBF
    ensures var cp := (b0 - 0xC0) * 0x40 + (b1 - 0x80);
      0x80 <= cp < 0x800 && cp / 0x40 == b0 - 0xC0 && cp % 0x40 == b1 - 0x80
  {
  }

  lemma ThreeByteFields(b0: int, b1: int, b2: int)
    requires 0xE0 <= b0 <= 0xEF && 0x80 <= b1 <= 0xBF && 0x80 <= b2 <= 0xBF
    requires (b0 != 0xE0 || b1 >= 0xA0)
    ensures var cp := (b0 - 0xE0) * 0x1000 + (b1 - 0x80) * 0x40 + (b2 - 0x80);
      && 0x800 <= cp < 0x10000
      && cp / 0x1000 == b0 - 0xE0 && (cp / 0x40) % 0x40 == b1 - 0x80 && cp % 0x40 == b2 - 0x80
  {
    var hi := (b0 - 0xE0) * 0x40 + (b1 - 0x80);
    var cp := hi * 0x40 + (b2 - 0x80);
    assert cp == (b0 - 0xE0) * 0x1000 + (b1 - 0x80) * 0x40 + (b2 - 0x80);
    assert cp / 0x40 == hi;
    assert hi / 0x40 == b0 - 0xE0;
  }

  lemma FourByteFields(b0: int, b1: int, b2: int, b3: int)
    requires 0xF0 <= b0 <= 0xF4 && 0x80 <= b1 <= 0xBF && 0x80 <= b2 <= 0xBF && 0x80 <= b3 <= 0xBF
    requires (b0 != 0xF0 || b1 >= 0x90) && (b0 != 0xF4 || b1 <= 0x8F)
    ensures var cp := (b0 - 0xF0) * 0x40000 + (b1 - 0x80) * 0x1000 + (b2 - 0x80) * 0x40 + (b3 - 0x80);
      && 0x10000 <= cp
      && cp / 0x40000 == b0 - 0xF0 && (cp / 0x1000) % 0x40 == b1 - 0x80
      && (cp / 0x40) % 0x40 == b2 - 0x80 && cp % 0x40 == b3 - 0x80
  {
    var h1 := (b0 - 0xF0) * 0x40 + (b1 - 0x80);
    var h2 := h1 * 0x40 + (b2 - 0x80);
    var cp := h2 * 0x40 + (b3 - 0x80);
    assert cp == (b0 - 0xF0) * 0x40000 + (b1 - 0x80) * 0x1000 + (b2 - 0x80) * 0x40 + (b3 - 0x80);
    assert cp / 0x40 == h2;
    assert h2 / 0x40 == h1;
    assert cp / 0x1000 == h1;
    assert h1 / 0x40 == b0 - 0xF0;
    assert cp / 0x40000 == b0 - 0xF0;
  }

  lemma EncodeDecodeChar(bs: seq<uint8>)
    requires DecodeChar(bs).Some?
    ensures EncodeChar(DecodeChar(bs).value.0) == bs[..DecodeChar(bs).value.1]
  {
    var b0 := bs[0] as int;
    var c := DecodeChar(bs).value.0;
    if b0 < 0x80 {
      assert bs[..1] == [bs[0]];
    } else if b0 <= 0xDF {
      TwoByteFields(b0, bs[1]);
      assert EncodeChar(c) == [bs[0], bs[1]];
      assert bs[..2] == [bs[0], bs[1]];
    } else if b0 <= 0xEF {
      ThreeByteFields(b0, bs[1], bs[2]);
      assert EncodeChar(c) == [bs[0], bs[1], bs[2]];
      assert bs[..3] == [bs[0], bs[1], bs[2]];
    } else {
      FourByteFields(b0, bs[1], bs[2], bs[3]);
      assert EncodeChar(c) == [bs[0], bs[1], bs[2], bs[3]];
      assert bs[..4] == [bs[0], bs[1], bs[2], bs[3]];
    }
  }

  /** Encoding undoes decoding: a byte sequence that decodes is exactly the
      encoding of its text, so the two functions are inverse bijections
      between strings and well-formed UTF-8. */
  lemma {:induction false} EncodeDecode(bs: seq<uint8>)
    requires Decode(bs).Some?
    ensures Encode(Decode(bs).value) == bs
    decreases |bs|
  {
    if |bs| > 0 {
      var p := DecodeChar(bs).value;
      var c, n := p.0, p.1;
      var tail := Decode(bs[n..]);
      assert tail.Some?;
      var s := Decode(bs).value;
      assert s == [c] + tail.value;
      EncodeDecodeChar(bs);
      EncodeDecode(bs[n..]);
      assert s[1..] == tail.value;
      assert Encode(s) == EncodeChar(c) + Encode(tail.value);
      assert bs == bs[..n] + bs[n..];
    }
  }
}
