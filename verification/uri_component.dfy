/** `encodeURIComponent` and `decodeURIComponent`, the percent-encoding the
    context codec applies to every value (server.js:36 and server.js:47).
    The encoder keeps the unreserved characters and writes every other
    character as the `%XY` escapes of its UTF-8 bytes, with upper-case hex
    digits. The decoder copies plain characters, turns escapes back into
    characters, and fails (a URIError in JavaScript, `None` here) on a
    truncated or non-hex escape, on a byte sequence that is not UTF-8, and on
    an overlong form, a surrogate or a value beyond U+10FFFF. */
module UriComponent {
  import opened Wrappers
  import opened JsString
  import opened DecodedText

  /** The characters encodeURIComponent leaves as they are. */
  predicate Unreserved(c: char) {
    || ('A' <= c <= 'Z') || ('a' <= c <= 'z') || ('0' <= c <= '9')
    || c == '-' || c == '_' || c == '.' || c == '!' || c == '~'
    || c == '*' || c == '\'' || c == '(' || c == ')'
  }

  predicate UpperHex(c: char) {
    ('0' <= c <= '9') || ('A' <= c <= 'F')
  }

  predicate IsByte(b: nat) { b < 0x100 }

  predicate IsContinuation(b: nat) { 0x80 <= b < 0xC0 }

  function HexDigit(d: nat): (c: char)
    requires d < 16
    ensures UpperHex(c)
  {
    if d < 10 then ('0' as int + d) as char else ('A' as int + d - 10) as char
  }

  /** The value of a hex digit of either case. */
  function HexValue(c: char): (r: Option<nat>)
    ensures r.Some? ==> r.value < 16
  {
    if '0' <= c <= '9' then Some(c as int - '0' as int)
    else if 'A' <= c <= 'F' then Some(c as int - 'A' as int + 10)
    else if 'a' <= c <= 'f' then Some(c as int - 'a' as int + 10)
    else None
  }

  /** The UTF-8 encoding of one Unicode scalar value. */
  function Utf8(c: char): (bs: seq<nat>)
    ensures 1 <= |bs| <= 4
    ensures forall i :: 0 <= i < |bs| ==> IsByte(bs[i])
  {
    var v := c as int;
    if v < 0x80 then [v]
    else if v < 0x800 then [0xC0 + v / 0x40, 0x80 + v % 0x40]
    else if v < 0x1_0000 then [0xE0 + v / 0x1000, 0x80 + v / 0x40 % 0x40, 0x80 + v % 0x40]
    else [0xF0 + v / 0x4_0000, 0x80 + v / 0x1000 % 0x40, 0x80 + v / 0x40 % 0x40, 0x80 + v % 0x40]
  }

  /** `%XY` for each byte. */
  function EscapeBytes(bs: seq<nat>): (r: string)
    requires forall i :: 0 <= i < |bs| ==> IsByte(bs[i])
    ensures |r| == 3 * |bs|
    ensures forall i :: 0 <= i < |r| ==> r[i] == '%' || UpperHex(r[i])
  {
    if bs == [] then []
    else
      var b := bs[0];
      assert IsByte(b);
      EscapeByte(b) + EscapeBytes(bs[1..])
  }

  function EscapeByte(b: nat): (r: string)
    requires IsByte(b)
  {
    ['%', HexDigit(b / 16), HexDigit(b % 16)]
  }

  function EncodeChar(c: char): (r: string)
    ensures forall i :: 0 <= i < |r| ==> Unreserved(r[i]) || r[i] == '%' || UpperHex(r[i])
  {
    if Unreserved(c) then [c] else EscapeBytes(Utf8(c))
  }

  /** encodeURIComponent: the output is made of unreserved characters, `%`
      and upper-case hex digits only, so it never holds `|` or `=`. */
  function Encode(s: string): (r: string)
    ensures forall i :: 0 <= i < |r| ==> Unreserved(r[i]) || r[i] == '%' || UpperHex(r[i])
  {
    if s == [] then [] else EncodeChar(s[0]) + Encode(s[1..])
  }

  /** The byte an escape `%XY` at the front of `s` stands for. */
  function EscapedByte(s: string): (r: Option<nat>)
    ensures r.Some? ==> |s| >= 3 && IsByte(r.value)
  {
    if |s| < 3 || s[0] != '%' then None
    else match (HexValue(s[1]), HexValue(s[2]))
      case (Some(hi), Some(lo)) => Some(16 * hi + lo)
      case _ => None
  }

  /** The number of leading one bits of a byte. */
  function LeadingOnes(b: nat): nat
    requires IsByte(b)
  {
    if b < 0x80 then 0
    else if b < 0xC0 then 1
    else if b < 0xE0 then 2
    else if b < 0xF0 then 3
    else if b < 0xF8 then 4
    else if b < 0xFC then 5
    else if b < 0xFE then 6
    else if b < 0xFF then 7
    else 8
  }

  /** Reads `count` escapes of UTF-8 continuation bytes from the front of `s`. */
  function Continuations(s: string, count: nat): (r: Option<seq<nat>>)
    ensures r.Some? ==> |s| >= 3 * count && |r.value| == count
    ensures r.Some? ==> forall i :: 0 <= i < count ==> IsContinuation(r.value[i])
  {
    if count == 0 then Some([])
    else match EscapedByte(s)
      case None => None
      case Some(b) =>
        if !IsContinuation(b) then None
        else match Continuations(s[3..], count - 1)
          case None => None
          case Some(tail) => Some([b] + tail)
  }

  /** The scalar value a lead byte and its continuation bytes encode, or None
      when the sequence is overlong, a surrogate or beyond U+10FFFF. */
  function CodePoint(lead: nat, tail: seq<nat>): Option<char>
    requires 1 <= |tail| <= 3
  {
    var v :=
      if |tail| == 1 then (lead as int - 0xC0) * 0x40 + (tail[0] as int - 0x80)
      else if |tail| == 2 then
        (lead as int - 0xE0) * 0x1000 + (tail[0] as int - 0x80) * 0x40 + (tail[1] as int - 0x80)
      else
        (lead as int - 0xF0) * 0x4_0000 + (tail[0] as int - 0x80) * 0x1000
        + (tail[1] as int - 0x80) * 0x40 + (tail[2] as int - 0x80);
    var least := if |tail| == 1 then 0x80 else if |tail| == 2 then 0x800 else 0x1_0000;
    if v < least || (0xD800 <= v < 0xE000) || v > 0x10_FFFF then None else Some(v as char)
  }

  /** decodeURIComponent; None where it throws a URIError. */
  function Decode(s: string): Option<string>
    decreases |s|
  {
    if s == [] then Some([])
    else if s[0] != '%' then Prepend(s[0], Decode(s[1..]))
    else match EscapedByte(s)
      case None => None
      case Some(b) =>
        var n := LeadingOnes(b);
        if n == 0 then Prepend(b as char, Decode(s[3..]))
        else if n == 1 || n > 4 then None
        else match Continuations(s[3..], n - 1)
          case None => None
          case Some(tail) =>
            match CodePoint(b, tail)
            case None => None
            case Some(c) => Prepend(c, Decode(s[3 * n..]))
  }

  lemma HexRoundTrip(b: nat)
    requires IsByte(b)
    ensures HexValue(HexDigit(b / 16)) == Some(b / 16)
    ensures HexValue(HexDigit(b % 16)) == Some(b % 16)
  {
  }

  lemma ReadEscape(b: nat, rest: string)
    requires IsByte(b)
    ensures EscapedByte(EscapeByte(b) + rest) == Some(b)
    ensures (EscapeByte(b) + rest)[3..] == rest
  {
    var hi, lo := b / 16, b % 16;
    HexRoundTrip(b);
    var s := EscapeByte(b) + rest;
    assert s[0] == '%' && s[1] == HexDigit(hi) && s[2] == HexDigit(lo);
    assert (HexValue(s[1]), HexValue(s[2])) == (Some(hi), Some(lo));
    assert 16 * hi + lo == b;
  }

  /** The first escape of an escaped byte sequence reads back as its first byte. */
  lemma ReadFirstEscape(bs: seq<nat>, t: string)
    requires bs != [] && forall i :: 0 <= i < |bs| ==> IsByte(bs[i])
    ensures EscapedByte(EscapeBytes(bs) + t) == Some(bs[0])
    ensures (EscapeBytes(bs) + t)[3..] == EscapeBytes(bs[1..]) + t
  {
    var b := bs[0];
    var rest := EscapeBytes(bs[1..]) + t;
    assert IsByte(b);
    assert EscapeBytes(bs) == EscapeByte(b) + EscapeBytes(bs[1..]);
    AppendAssoc(EscapeByte(b), EscapeBytes(bs[1..]), t);
    ReadEscape(b, rest);
  }

  lemma {:induction false} ReadContinuations(tail: seq<nat>, t: string)
    requires forall i :: 0 <= i < |tail| ==> IsByte(tail[i])
    requires forall i :: 0 <= i < |tail| ==> IsContinuation(tail[i])
    ensures Continuations(EscapeBytes(tail) + t, |tail|) == Some(tail)
  {
    if tail != [] {
      ReadFirstEscape(tail, t);
      ReadContinuations(tail[1..], t);
      assert [tail[0]] + tail[1..] == tail;
    }
  }

  /** The UTF-8 bytes of `c` decode back to `c`. */
  lemma Utf8Decodes(c: char)
    requires c as int >= 0x80
    ensures var bs := Utf8(c);
      && LeadingOnes(bs[0]) == |bs|
      && (forall i :: 1 <= i < |bs| ==> IsContinuation(bs[i]))
      && CodePoint(bs[0], bs[1..]) == Some(c)
  {
    var v := c as int;
    if v < 0x800 {
      Utf8Decodes2(c);
    } else if v < 0x1_0000 {
      Utf8Decodes3(c);
    } else {
      Utf8Decodes4(c);
    }
  }

  lemma Utf8Decodes2(c: char)
    requires 0x80 <= c as int < 0x800
    ensures var bs := Utf8(c);
      && |bs| == 2 && LeadingOnes(bs[0]) == 2 && IsContinuation(bs[1])
      && CodePoint(bs[0], bs[1..]) == Some(c)
  {
  }

  lemma Utf8Decodes3(c: char)
    requires 0x800 <= c as int < 0x1_0000
    ensures var bs := Utf8(c);
      && |bs| == 3 && LeadingOnes(bs[0]) == 3 && IsContinuation(bs[1]) && IsContinuation(bs[2])
      && CodePoint(bs[0], bs[1..]) == Some(c)
  {
    var v := c as int;
    assert v / 0x1000 * 0x40 + v / 0x40 % 0x40 == v / 0x40;
  }

  lemma Utf8Decodes4(c: char)
    requires c as int >= 0x1_0000
    ensures var bs := Utf8(c);
      && |bs| == 4 && LeadingOnes(bs[0]) == 4
      && IsContinuation(bs[1]) && IsContinuation(bs[2]) && IsContinuation(bs[3])
      && CodePoint(bs[0], bs[1..]) == Some(c)
  {
    var v := c as int;
    assert v / 0x1000 * 0x40 + v / 0x40 % 0x40 == v / 0x40;
    assert v / 0x4_0000 * 0x40 + v / 0x1000 % 0x40 == v / 0x1000;
  }

  /** Decoding an encoded character consumes exactly its encoding. */
  lemma DecodeEncodeChar(c: char, t: string)
    ensures Decode(EncodeChar(c) + t) == Prepend(c, Decode(t))
  {
    if Unreserved(c) {
      assert ([c] + t)[1..] == t;
    } else {
      var bs := Utf8(c);
      var s := EscapeBytes(bs) + t;
      ReadFirstEscape(bs, t);
      if c as int < 0x80 {
        assert s[3..] == t;
      } else {
        Utf8Decodes(c);
        ReadContinuations(bs[1..], t);
        assert s[3 * |bs|..] == t;
      }
    }
  }

  /** decodeURIComponent(encodeURIComponent(s)) == s. */
  lemma {:induction false} DecodeEncode(s: string)
    ensures Decode(Encode(s)) == Some(s)
  {
    if s != [] {
      DecodeEncode(s[1..]);
      assert Encode(s) == EncodeChar(s[0]) + Encode(s[1..]);
      DecodeEncodeChar(s[0], Encode(s[1..]));
      assert [s[0]] + s[1..] == s;
    }
  }

  /** Text without `%` decodes to itself. */
  lemma {:induction false} DecodePlain(s: string)
    requires '%' !in s
    ensures Decode(s) == Some(s)
  {
    if s != [] {
      DecodePlain(s[1..]);
      assert [s[0]] + s[1..] == s;
    }
  }

  /** The encoder's output holds neither separator of the context codec. */
  lemma EncodeAvoidsSeparators(s: string)
    ensures '|' !in Encode(s) && '=' !in Encode(s)
  {
    var r := Encode(s);
    forall i | 0 <= i < |r| ensures r[i] != '|' && r[i] != '=' {
    }
  }

  /** A lone `%`, a truncated multi-byte sequence and an overlong encoding of
      U+0000 each make the decoder fail. */
  lemma DecodeRejectsMalformed()
    ensures Decode("%") == None
    ensures Decode("%E2%82") == None
    ensures Decode("%C0%80") == None
  {
    assert EscapedByte("%E2%82") == Some(0xE2);
    assert Continuations("%82", 2) == None by {
      assert EscapedByte("%82") == Some(0x82);
      assert EscapedByte("") == None;
    }
    assert EscapedByte("%C0%80") == Some(0xC0);
    assert Continuations("%80", 1) == Some([0x80]) by {
      assert EscapedByte("%80") == Some(0x80);
      assert "%80"[3..] == [];
      assert Continuations([], 0) == Some([]);
      assert [0x80] + [] == [0x80];
    }
  }
}
