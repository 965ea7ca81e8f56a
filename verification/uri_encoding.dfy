/**
  `encodeURIComponent` as the URI Handling Functions clause of ECMA-262
  defines it: characters of the unreserved set (A-Z, a-z, 0-9 and
  `-_.!~*'()`) are kept, every other character is written as the UTF-8 bytes
  of its code point, each byte as `%` and two upper-case hexadecimal digits
  (the percent-encoding of section 2.1 of RFC 3986).
 */
module UriEncoding {

  import opened Options

  type Byte = b: int | 0 <= b < 256

  /** The characters `encodeURIComponent` leaves as they are. */
  predicate Unreserved(c: char) {
    || 'A' <= c <= 'Z'
    || 'a' <= c <= 'z'
    || '0' <= c <= '9'
    || c in "-_.!~*'()"
  }

  /** The UTF-8 encoding of one code point, as in the Encode operation of ECMA-262. */
  function Utf8(c: char): (bs: seq<Byte>)
    ensures 1 <= |bs| <= 4
    ensures |bs| == 1 <==> c as int < 0x80
    ensures |bs| == 1 ==> bs[0] == c as int
    ensures |bs| > 1 ==> forall i :: 1 <= i < |bs| ==> 0x80 <= bs[i] < 0xC0
  {
    var n := c as int;
    if n < 0x80 then [n]
    else if n < 0x800 then [0xC0 + n / 0x40, 0x80 + n % 0x40]
    else if n < 0x1_0000 then [0xE0 + n / 0x1000, 0x80 + (n / 0x40) % 0x40, 0x80 + n % 0x40]
    else [0xF0 + n / 0x4_0000, 0x80 + (n / 0x1000) % 0x40, 0x80 + (n / 0x40) % 0x40, 0x80 + n % 0x40]
  }

  /** The UTF-8 bytes of a whole string. */
  function Utf8String(s: string): seq<Byte>
    decreases |s|
  {
    if |s| == 0 then [] else Utf8(s[0]) + Utf8String(s[1..])
  }

  /** An upper-case hexadecimal digit. */
  function HexDigit(d: int): (c: char)
    requires 0 <= d < 16
  {
    if d < 10 then ('0' as int + d) as char else ('A' as int + d - 10) as char
  }

  predicate IsHexDigit(c: char) {
    '0' <= c <= '9' || 'A' <= c <= 'F' || 'a' <= c <= 'f'
  }

  /** The value of a hexadecimal digit of either case. */
  function HexValue(c: char): (d: int)
    requires IsHexDigit(c)
    ensures 0 <= d < 16
  {
    if '0' <= c <= '9' then c as int - '0' as int
    else if 'A' <= c <= 'F' then c as int - 'A' as int + 10
    else c as int - 'a' as int + 10
  }

  /** `%XX` for one byte. */
  function Escape(b: Byte): string {
    ['%', HexDigit(b / 16), HexDigit(b % 16)]
  }

  function EscapeAll(bs: seq<Byte>): string
    decreases |bs|
  {
    if |bs| == 0 then [] else Escape(bs[0]) + EscapeAll(bs[1..])
  }

  function EncodeChar(c: char): string {
    if Unreserved(c) then [c] else EscapeAll(Utf8(c))
  }

  /**
    `encodeURIComponent(s)`: the result has the percent-encoded shape and is
    never shorter than `s`.
   */
  function Encode(s: string): (r: string)
    ensures PercentEncoded(r)
    ensures |r| >= |s|
    decreases |s|
  {
    if |s| == 0 then []
    else
      var rest := Encode(s[1..]);
      EncodeCharDecodes(s[0], rest);
      EncodeCharLength(s[0]);
      EncodeChar(s[0]) + rest
  }

  /** Encoding works character by character, so it distributes over concatenation. */
  lemma {:induction false} EncodeConcat(a: string, b: string)
    ensures Encode(a + b) == Encode(a) + Encode(b)
    decreases |a|
  {
    if |a| > 0 {
      var t := a[1..];
      assert a == [a[0]] + t;
      assert a + b == [a[0]] + (t + b);
      EncodeConcat(t, b);
      EncodeCons(a[0], t + b);
      EncodeCons(a[0], t);
      Associative(EncodeChar(a[0]), Encode(t), Encode(b));
    } else {
      assert a + b == b;
    }
  }

  lemma Associative(x: string, y: string, z: string)
    ensures (x + y) + z == x + (y + z)
  {
  }

  /** Encoding a string that starts with `c` starts with the encoding of `c`. */
  lemma EncodeCons(c: char, s: string)
    ensures Encode([c] + s) == EncodeChar(c) + Encode(s)
  {
    var cs := [c] + s;
    assert cs[0] == c && cs[1..] == s;
  }

  /** The encoding of a string ends with the encoding of its last character. */
  lemma {:induction false} EncodeLast(s: string, c: char)
    requires |s| > 0 && s[|s| - 1] == c
    ensures Encode(s) == Encode(s[..|s| - 1]) + EncodeChar(c)
  {
    var body := s[..|s| - 1];
    assert s == body + [c];
    EncodeConcat(body, [c]);
    EncodeSingle(c);
  }

  /** A one-character string encodes as that character does. */
  lemma EncodeSingle(c: char)
    ensures Encode([c]) == EncodeChar(c)
  {
    assert [c][1..] == [];
    assert Encode([c]) == EncodeChar(c) + Encode([]);
  }

  /** One character encodes to itself when unreserved, and to at least one `%XX` triple otherwise. */
  lemma EncodeCharLength(c: char)
    ensures Unreserved(c) ==> EncodeChar(c) == [c]
    ensures !Unreserved(c) ==> |EncodeChar(c)| >= 3
  {
    if !Unreserved(c) {
      var bs := Utf8(c);
      assert EscapeAll(bs) == Escape(bs[0]) + EscapeAll(bs[1..]);
    }
  }

  /**
    The shape of a percent-encoded component: unreserved characters and
    `%XX` triples with upper-case hexadecimal digits, and nothing else.
   */
  predicate PercentEncoded(s: string)
    decreases |s|
  {
    if |s| == 0 then true
    else if Unreserved(s[0]) then PercentEncoded(s[1..])
    else
      && |s| >= 3 && s[0] == '%'
      && ('0' <= s[1] <= '9' || 'A' <= s[1] <= 'F')
      && ('0' <= s[2] <= '9' || 'A' <= s[2] <= 'F')
      && PercentEncoded(s[3..])
  }

  /**
    Percent-decoding to bytes, the inverse used by the receiving side:
    unreserved characters stand for their own code, `%XX` for the byte `XX`;
    anything else is malformed.
   */
  function Decode(s: string): (r: Option<seq<Byte>>)
    decreases |s|
  {
    if |s| == 0 then Some([])
    else if Unreserved(s[0]) then
      match Decode(s[1..])
      case None => None
      case Some(rest) => Some([s[0] as int] + rest)
    else if |s| >= 3 && s[0] == '%' && IsHexDigit(s[1]) && IsHexDigit(s[2]) then
      match Decode(s[3..])
      case None => None
      case Some(rest) => Some([HexValue(s[1]) * 16 + HexValue(s[2])] + rest)
    else None
  }

  lemma EscapeDecodes(b: Byte, rest: string)
    ensures Decode(Escape(b) + rest) ==
      (match Decode(rest) case None => None case Some(bs) => Some([b] + bs))
  {
    var e := Escape(b) + rest;
    assert e[3..] == rest;
    assert !Unreserved(e[0]);
  }

  lemma EscapeWellFormed(b: Byte, rest: string)
    requires PercentEncoded(rest)
    ensures PercentEncoded(Escape(b) + rest)
  {
    var e := Escape(b) + rest;
    assert e[3..] == rest;
  }

  lemma {:induction false} EscapeAllDecodes(bs: seq<Byte>, rest: string)
    ensures Decode(EscapeAll(bs) + rest) ==
      (match Decode(rest) case None => None case Some(tail) => Some(bs + tail))
    decreases |bs|
  {
    if |bs| > 0 {
      EscapeAllDecodes(bs[1..], rest);
      assert EscapeAll(bs) + rest == Escape(bs[0]) + (EscapeAll(bs[1..]) + rest);
      EscapeDecodes(bs[0], EscapeAll(bs[1..]) + rest);
      match Decode(rest)
      case None =>
      case Some(tail) => assert [bs[0]] + (bs[1..] + tail) == bs + tail;
    } else {
      assert EscapeAll(bs) + rest == rest;
      match Decode(rest)
      case None =>
      case Some(tail) => assert bs + tail == tail;
    }
  }

  lemma {:induction false} EscapeAllWellFormed(bs: seq<Byte>, rest: string)
    requires PercentEncoded(rest)
    ensures PercentEncoded(EscapeAll(bs) + rest)
    decreases |bs|
  {
    if |bs| > 0 {
      var tail := EscapeAll(bs[1..]) + rest;
      EscapeAllWellFormed(bs[1..], rest);
      assert EscapeAll(bs) + rest == Escape(bs[0]) + tail;
      EscapeWellFormed(bs[0], tail);
    } else {
      assert EscapeAll(bs) + rest == rest;
    }
  }

  lemma EncodeCharDecodes(c: char, rest: string)
    ensures Decode(EncodeChar(c) + rest) ==
      (match Decode(rest) case None => None case Some(tail) => Some(Utf8(c) + tail))
    ensures PercentEncoded(rest) ==> PercentEncoded(EncodeChar(c) + rest)
  {
    if Unreserved(c) {
      var e := [c] + rest;
      assert e[1..] == rest;
    } else {
      EscapeAllDecodes(Utf8(c), rest);
      if PercentEncoded(rest) {
        EscapeAllWellFormed(Utf8(c), rest);
      }
    }
  }

  /**
    The encoding round-trips: percent-decoding `encodeURIComponent(s)` gives
    back exactly the UTF-8 bytes of `s`, and the encoding has the
    percent-encoded shape.
   */
  lemma {:induction false} EncodeRoundTrip(s: string)
    ensures Decode(Encode(s)) == Some(Utf8String(s))
    ensures PercentEncoded(Encode(s))
    decreases |s|
  {
    if |s| > 0 {
      EncodeRoundTrip(s[1..]);
      EncodeCharDecodes(s[0], Encode(s[1..]));
    }
  }

  /** On ASCII text the round trip gives back the character codes themselves. */
  lemma {:induction false} Utf8StringAscii(s: string)
    requires forall i :: 0 <= i < |s| ==> s[i] as int < 0x80
    ensures |Utf8String(s)| == |s|
    ensures forall i :: 0 <= i < |s| ==> Utf8String(s)[i] == s[i] as int
    decreases |s|
  {
    if |s| > 0 {
      assert forall i :: 0 <= i < |s[1..]| ==> s[1..][i] == s[i + 1];
      Utf8StringAscii(s[1..]);
    }
  }

  /** A percent-encoded component holds only unreserved characters, `%` and hexadecimal digits. */
  lemma {:induction false} PercentEncodedAlphabet(s: string)
    requires PercentEncoded(s)
    ensures forall i :: 0 <= i < |s| ==> Unreserved(s[i]) || s[i] == '%' || '0' <= s[i] <= '9' || 'A' <= s[i] <= 'F'
    decreases |s|
  {
    if |s| > 0 {
      var k := if Unreserved(s[0]) then 1 else 3;
      PercentEncodedAlphabet(s[k..]);
      assert forall i :: k <= i < |s| ==> s[i] == s[k..][i - k];
    }
  }

  /**
    No character that would end or split a URL query value survives encoding:
    the result has no space, `?`, `&`, `#`, `=` or `+`.
   */
  lemma EncodedHasNoDelimiters(s: string)
    ensures forall i :: 0 <= i < |Encode(s)| ==> Encode(s)[i] !in " ?&#=+"
  {
    var e := Encode(s);
    PercentEncodedAlphabet(e);
    assert forall i :: 0 <= i < |e| ==> e[i] !in " ?&#=+" by {
      forall i | 0 <= i < |e|
        ensures e[i] !in " ?&#=+"
      {
        NotDelimiter(e[i]);
      }
    }
  }

  /** The characters of a percent-encoded component are none of the URL delimiters. */
  lemma NotDelimiter(c: char)
    requires Unreserved(c) || c == '%' || '0' <= c <= '9' || 'A' <= c <= 'F'
    ensures c !in " ?&#=+"
  {
  }

  /** Encoding never shortens, and leaves a string unchanged exactly when all its characters are unreserved. */
  lemma {:induction false} EncodeIdentityIffUnreserved(s: string)
    ensures |Encode(s)| >= |s|
    ensures Encode(s) == s <==> forall i :: 0 <= i < |s| ==> Unreserved(s[i])
    decreases |s|
  {
    if |s| > 0 {
      EncodeIdentityIffUnreserved(s[1..]);
      assert forall i :: 1 <= i < |s| ==> s[i] == s[1..][i - 1];
      if !Unreserved(s[0]) {
        assert |EscapeAll(Utf8(s[0]))| >= 3 by {
          assert EscapeAll(Utf8(s[0])) == Escape(Utf8(s[0])[0]) + EscapeAll(Utf8(s[0])[1..]);
        }
        assert |Encode(s)| > |s|;
      } else {
        assert Encode(s) == [s[0]] + Encode(s[1..]);
        assert s == [s[0]] + s[1..];
      }
    }
  }
}
