/**
 * The percent-encoding that `encodeURIComponent` applies to every query
 * value (ECMA-262 5.1, section 15.1.3.4), and, as its partner, the decoding
 * that `decodeURIComponent` performs (section 15.1.3.2).
 *
 * A Dafny `char` is a Unicode scalar value, so a string here is a sequence
 * of code points; the UTF-16 surrogate pairs of a JavaScript string are
 * already combined.
 */
module UriEncoding {
  import opened Wrappers

  type Byte = x: int | 0 <= x < 256
  type Nibble = x: int | 0 <= x < 16

  /** uriUnreserved: the characters left as they are. */
  predicate Unreserved(c: char) {
    || 'A' <= c <= 'Z'
    || 'a' <= c <= 'z'
    || '0' <= c <= '9'
    || c == '-' || c == '_' || c == '.' || c == '!' || c == '~'
    || c == '*' || c == '\'' || c == '(' || c == ')'
  }

  predicate IsUpperHex(c: char) {
    '0' <= c <= '9' || 'A' <= c <= 'F'
  }

  /** The upper-case hexadecimal digit for `n`. */
  function HexDigit(n: Nibble): (c: char)
    ensures IsUpperHex(c) && Unreserved(c)
    ensures HexValue(c) == Some(n)
  {
    if n < 10 then ('0' as int + n) as char else ('A' as int + n - 10) as char
  }

  /** The value of a hexadecimal digit of either case. */
  function HexValue(c: char): Option<Nibble> {
    if '0' <= c <= '9' then Some(c as int - '0' as int)
    else if 'A' <= c <= 'F' then Some(c as int - 'A' as int + 10)
    else if 'a' <= c <= 'f' then Some(c as int - 'a' as int + 10)
    else None
  }

  // ---------------------------------------------------------------------
  // UTF-8 (the octet table of section 15.1.3)

  predicate IsContinuation(b: Byte) {
    0x80 <= b < 0xC0
  }

  /** The UTF-8 octets of one code point. */
  function Utf8Encode(c: char): (octets: seq<Byte>)
    ensures 1 <= |octets| <= 4
    ensures |octets| == 1 <==> c as int < 0x80
    ensures forall i :: 1 <= i < |octets| ==> IsContinuation(octets[i])
  {
    var v := c as int;
    if v < 0x80 then [v]
    else if v < 0x800 then [0xC0 + v / 64, 0x80 + v % 64]
    else if v < 0x10000 then [0xE0 + v / 4096, 0x80 + (v / 64) % 64, 0x80 + v % 64]
    else [0xF0 + v / 262144, 0x80 + (v / 4096) % 64, 0x80 + (v / 64) % 64, 0x80 + v % 64]
  }

  /**
   * The length of the octet sequence a leading octet announces: the number
   * of its leading one bits, or 1 for a plain ASCII octet; 0 when that count
   * is 1 or more than 4, which decoding rejects.
   */
  function Utf8Length(lead: Byte): (n: nat)
    ensures n <= 4
  {
    if lead < 0x80 then 1
    else if lead < 0xC0 then 0
    else if lead < 0xE0 then 2
    else if lead < 0xF0 then 3
    else if lead < 0xF8 then 4
    else 0
  }

  /**
   * The code point a complete octet sequence stands for, or None when the
   * sequence is not a valid UTF-8 encoding (a bad continuation octet, an
   * over-long form, a surrogate, or a value above U+10FFFF).
   */
  function Utf8Decode(octets: seq<Byte>): (r: Option<char>)
    ensures r.Some? ==> 1 <= |octets| <= 4 && Utf8Length(octets[0]) == |octets|
  {
    if |octets| == 1 then
      if octets[0] < 0x80 then Some(octets[0] as char) else None
    else if |octets| == 2 then
      var b0, b1 := octets[0] as int, octets[1] as int;
      if 0xC0 <= b0 < 0xE0 && IsContinuation(b1) then
        var v := (b0 - 0xC0) * 64 + (b1 - 0x80);
        if 0x80 <= v then Some(v as char) else None
      else None
    else if |octets| == 3 then
      var b0, b1, b2 := octets[0] as int, octets[1] as int, octets[2] as int;
      if 0xE0 <= b0 < 0xF0 && IsContinuation(b1) && IsContinuation(b2) then
        var v := (b0 - 0xE0) * 4096 + (b1 - 0x80) * 64 + (b2 - 0x80);
        if 0x800 <= v && !(0xD800 <= v < 0xE000) then Some(v as char) else None
      else None
    else if |octets| == 4 then
      var b0, b1, b2, b3 := octets[0] as int, octets[1] as int, octets[2] as int, octets[3] as int;
      if 0xF0 <= b0 < 0xF8 && IsContinuation(b1) && IsContinuation(b2) && IsContinuation(b3) then
        var v := (b0 - 0xF0) * 262144 + (b1 - 0x80) * 4096 + (b2 - 0x80) * 64 + (b3 - 0x80);
        if 0x10000 <= v < 0x110000 then Some(v as char) else None
      else None
    else None
  }

  /** Decoding the UTF-8 form of a code point gives the code point back. */
  lemma Utf8RoundTrip(c: char)
    ensures Utf8Length(Utf8Encode(c)[0]) == |Utf8Encode(c)|
    ensures Utf8Decode(Utf8Encode(c)) == Some(c)
  {
    var v := c as int;
    if v < 0x80 {
    } else if v < 0x800 {
      Utf8RoundTrip2(c);
    } else if v < 0x10000 {
      Utf8RoundTrip3(c);
    } else {
      Utf8RoundTrip4(c);
    }
  }

  lemma Utf8RoundTrip2(c: char)
    requires 0x80 <= c as int < 0x800
    ensures Utf8Length(Utf8Encode(c)[0]) == 2
    ensures Utf8Decode(Utf8Encode(c)) == Some(c)
  {
    var v := c as int;
    var q, r := v / 64, v % 64;
    assert v == q * 64 + r;
    assert Utf8Encode(c) == [0xC0 + q, 0x80 + r];
  }

  lemma Utf8RoundTrip3(c: char)
    requires 0x800 <= c as int < 0x10000
    ensures Utf8Length(Utf8Encode(c)[0]) == 3
    ensures Utf8Decode(Utf8Encode(c)) == Some(c)
  {
    var v := c as int;
    var q, r := v / 64, v % 64;
    var q2, r2 := q / 64, q % 64;
    assert v == q * 64 + r;
    assert q == q2 * 64 + r2;
    assert v / 4096 == q2;
    assert Utf8Encode(c) == [0xE0 + q2, 0x80 + r2, 0x80 + r];
  }

  lemma Utf8RoundTrip4(c: char)
    requires 0x10000 <= c as int
    ensures Utf8Length(Utf8Encode(c)[0]) == 4
    ensures Utf8Decode(Utf8Encode(c)) == Some(c)
  {
    var v := c as int;
    var q, r := v / 64, v % 64;
    var q2, r2 := q / 64, q % 64;
    var q3, r3 := q2 / 64, q2 % 64;
    assert v == q * 64 + r;
    assert q == q2 * 64 + r2;
    assert q2 == q3 * 64 + r3;
    assert v / 4096 == q2;
    assert v / 262144 == q3;
    assert Utf8Encode(c) == [0xF0 + q3, 0x80 + r3, 0x80 + r2, 0x80 + r];
  }

  // ---------------------------------------------------------------------
  // Encoding

  /** One octet written as `%XY` with upper-case hexadecimal digits. */
  function EscapeOctet(b: Byte): (e: string)
    ensures |e| == 3 && e[0] == '%' && IsUpperHex(e[1]) && IsUpperHex(e[2])
  {
    ['%', HexDigit(b / 16), HexDigit(b % 16)]
  }

  function EscapeOctets(octets: seq<Byte>): (e: string)
    ensures |e| == 3 * |octets|
    ensures forall i :: 0 <= i < |e| ==> e[i] == '%' || IsUpperHex(e[i])
  {
    if octets == [] then [] else EscapeOctet(octets[0]) + EscapeOctets(octets[1..])
  }

  /** A character stays as it is when unreserved, and becomes the escapes of its UTF-8 octets otherwise. */
  function EncodeChar(c: char): (e: string)
    ensures Unreserved(c) ==> e == [c]
    ensures !Unreserved(c) ==> |e| == 3 * |Utf8Encode(c)| && e[0] == '%'
  {
    if Unreserved(c) then [c] else EscapeOctets(Utf8Encode(c))
  }

  /**
   * encodeURIComponent. Every character of the result is unreserved or a
   * `%`, so an encoded value never holds a `&` or a `=`.
   */
  function EncodeUriComponent(s: string): (e: string)
    ensures forall i :: 0 <= i < |e| ==> Unreserved(e[i]) || e[i] == '%'
    ensures '&' !in e && '=' !in e
    ensures |e| >= |s|
  {
    if s == [] then [] else EncodeChar(s[0]) + EncodeUriComponent(s[1..])
  }

  /** Encoding is applied character by character. */
  lemma {:induction false} EncodeUriComponentAppend(a: string, b: string)
    ensures EncodeUriComponent(a + b) == EncodeUriComponent(a) + EncodeUriComponent(b)
  {
    if a == [] {
      assert a + b == b;
    } else {
      assert (a + b)[0] == a[0];
      assert (a + b)[1..] == a[1..] + b;
      EncodeUriComponentAppend(a[1..], b);
      calc {
        EncodeUriComponent(a + b);
        EncodeChar(a[0]) + EncodeUriComponent(a[1..] + b);
        EncodeChar(a[0]) + (EncodeUriComponent(a[1..]) + EncodeUriComponent(b));
        (EncodeChar(a[0]) + EncodeUriComponent(a[1..])) + EncodeUriComponent(b);
      }
    }
  }

  /** A string of unreserved characters only is its own encoding. */
  lemma {:induction false} EncodeUnreservedIsIdentity(s: string)
    requires forall i :: 0 <= i < |s| ==> Unreserved(s[i])
    ensures EncodeUriComponent(s) == s
  {
    if s != [] {
      EncodeUnreservedIsIdentity(s[1..]);
    }
  }

  /** A character that needs escaping always becomes `%` and two upper-case hexadecimal digits per octet. */
  lemma EncodedCharIsEscapes(c: char)
    requires !Unreserved(c)
    ensures forall i :: 0 <= i < |EncodeChar(c)| ==>
      (i % 3 == 0 <==> EncodeChar(c)[i] == '%') && (i % 3 != 0 ==> IsUpperHex(EncodeChar(c)[i]))
  {
    EscapeOctetsShape(Utf8Encode(c));
  }

  lemma {:induction false} EscapeOctetsShape(octets: seq<Byte>)
    ensures forall i :: 0 <= i < |EscapeOctets(octets)| ==>
      (i % 3 == 0 <==> EscapeOctets(octets)[i] == '%') && (i % 3 != 0 ==> IsUpperHex(EscapeOctets(octets)[i]))
  {
    if octets != [] {
      EscapeOctetsShape(octets[1..]);
      var e := EscapeOctets(octets);
      assert e == EscapeOctet(octets[0]) + EscapeOctets(octets[1..]);
      forall i | 3 <= i < |e|
        ensures e[i] == EscapeOctets(octets[1..])[i - 3] && (i % 3 == (i - 3) % 3)
      {
      }
    }
  }

  // ---------------------------------------------------------------------
  // Decoding (the partner of the encoding)

  /** Reads `n` escapes `%XY` from the front of `s`. */
  function ReadOctets(s: string, n: nat): (r: Option<seq<Byte>>)
    ensures r.Some? ==> |r.value| == n && 3 * n <= |s|
  {
    if n == 0 then Some([])
    else if |s| < 3 || s[0] != '%' then None
    else match (HexValue(s[1]), HexValue(s[2]))
      case (Some(hi), Some(lo)) =>
        (match ReadOctets(s[3..], n - 1)
         case Some(rest) => Some([hi as int * 16 + lo as int] + rest)
         case None => None)
      case _ => None
  }

  function Prepend(c: char, r: Option<string>): Option<string> {
    match r
    case Some(t) => Some([c] + t)
    case None => None
  }

  /**
   * decodeURIComponent: a character other than `%` stands for itself; a `%`
   * starts the escapes of one UTF-8 sequence, which must be complete and
   * valid. None stands for the URIError the decoder throws.
   */
  function DecodeUriComponent(s: string): (r: Option<string>)
    decreases |s|
  {
    if s == [] then Some([])
    else if s[0] != '%' then Prepend(s[0], DecodeUriComponent(s[1..]))
    else match ReadOctets(s, 1)
      case None => None
      case Some(lead) =>
        var n := Utf8Length(lead[0]);
        if n == 0 then None
        else match ReadOctets(s, n)
          case None => None
          case Some(octets) =>
            match Utf8Decode(octets)
            case None => None
            case Some(c) => Prepend(c, DecodeUriComponent(s[3 * n..]))
  }

  lemma {:induction false} ReadEscapedOctets(octets: seq<Byte>, t: string)
    ensures ReadOctets(EscapeOctets(octets) + t, |octets|) == Some(octets)
  {
    if octets != [] {
      var s := EscapeOctets(octets) + t;
      assert s == EscapeOctet(octets[0]) + (EscapeOctets(octets[1..]) + t);
      assert s[3..] == EscapeOctets(octets[1..]) + t;
      ReadEscapedOctets(octets[1..], t);
      var b := octets[0];
      assert b / 16 * 16 + b % 16 == b;
      assert [b] + octets[1..] == octets;
    }
  }

  /** Decoding consumes exactly the escapes of one valid UTF-8 sequence. */
  lemma DecodeEscapedSequence(octets: seq<Byte>, c: char, t: string)
    requires |octets| > 0 && Utf8Length(octets[0]) == |octets|
    requires Utf8Decode(octets) == Some(c)
    ensures DecodeUriComponent(EscapeOctets(octets) + t) == Prepend(c, DecodeUriComponent(t))
  {
    var s := EscapeOctets(octets) + t;
    var n := |octets|;
    assert s == EscapeOctets([octets[0]]) + (EscapeOctets(octets[1..]) + t) by {
      assert EscapeOctets([octets[0]]) == EscapeOctet(octets[0]);
    }
    ReadEscapedOctets([octets[0]], EscapeOctets(octets[1..]) + t);
    assert ReadOctets(s, 1) == Some([octets[0]]);
    ReadEscapedOctets(octets, t);
    assert ReadOctets(s, n) == Some(octets);
    assert s[3 * n..] == t;
    assert s[0] == '%';
  }

  /** Decoding consumes exactly the encoding of the first character. */
  lemma DecodeEncodedChar(c: char, t: string)
    ensures DecodeUriComponent(EncodeChar(c) + t) == Prepend(c, DecodeUriComponent(t))
  {
    if Unreserved(c) {
      assert (EncodeChar(c) + t)[1..] == t;
    } else {
      Utf8RoundTrip(c);
      DecodeEscapedSequence(Utf8Encode(c), c, t);
    }
  }

  /** Percent-decoding an encoded value gives back the original value. */
  lemma {:induction false} DecodeEncodeRoundTrip(s: string)
    ensures DecodeUriComponent(EncodeUriComponent(s)) == Some(s)
  {
    if s != [] {
      DecodeEncodedChar(s[0], EncodeUriComponent(s[1..]));
      DecodeEncodeRoundTrip(s[1..]);
      assert [s[0]] + s[1..] == s;
    }
  }

  /** Encoding is injective: two values with the same encoding are equal. */
  lemma EncodeUriComponentInjective(a: string, b: string)
    requires EncodeUriComponent(a) == EncodeUriComponent(b)
    ensures a == b
  {
    DecodeEncodeRoundTrip(a);
    DecodeEncodeRoundTrip(b);
  }
}
