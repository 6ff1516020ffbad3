/** `encodeURIComponent` (ECMA-262, sections 19.2.6.4 and 19.2.6.5): every
    code point outside the unreserved set `A-Z a-z 0-9 - _ . ! ~ * ' ( )` is
    written as the UTF-8 bytes of the code point, each as `%` and two
    upper-case hexadecimal digits (section 2.1 of RFC 3986). The decoder
    beside it is the inverse the audio proxy endpoint applies to the query
    value; it is here to state that the encoding loses nothing. */
module UriComponent {
  import opened Wrappers

  predicate IsUnreserved(c: char) {
    || ('A' <= c <= 'Z') || ('a' <= c <= 'z') || ('0' <= c <= '9')
    || c == '-' || c == '_' || c == '.' || c == '!' || c == '~'
    || c == '*' || c == '\'' || c == '(' || c == ')'
  }

  predicate IsUpperHexDigit(c: char) {
    ('0' <= c <= '9') || ('A' <= c <= 'F')
  }

  function HexDigit(d: nat): (c: char)
    requires d < 16
    ensures IsUpperHexDigit(c)
  {
    if d < 10 then ('0' as int + d) as char else ('A' as int + d - 10) as char
  }

  /** The value of a hexadecimal digit of either case. */
  function HexValue(c: char): (r: Option<nat>)
    ensures r.Some? ==> r.value < 16
  {
    if '0' <= c <= '9' then Some(c as int - '0' as int)
    else if 'A' <= c <= 'F' then Some(c as int - 'A' as int + 10)
    else if 'a' <= c <= 'f' then Some(c as int - 'a' as int + 10)
    else None
  }

  /** One byte as `%XY`. */
  function PercentByte(b: nat): (r: string)
    requires b < 256
    ensures |r| == 3 && r[0] == '%' && IsUpperHexDigit(r[1]) && IsUpperHexDigit(r[2])
  {
    ['%', HexDigit(b / 16), HexDigit(b % 16)]
  }

  /** The two UTF-8 bytes of a code point in U+0080..U+07FF whose base-64
      digits are `x0 x1`. */
  function Escape2(x0: nat, x1: nat): string
    requires x0 < 32 && x1 < 64
  {
    PercentByte(0xC0 + x0) + PercentByte(0x80 + x1)
  }

  /** The three UTF-8 bytes of a code point in U+0800..U+FFFF whose base-64
      digits are `x0 x1 x2`. */
  function Escape3(x0: nat, x1: nat, x2: nat): string
    requires x0 < 16 && x1 < 64 && x2 < 64
  {
    PercentByte(0xE0 + x0) + PercentByte(0x80 + x1) + PercentByte(0x80 + x2)
  }

  /** The four UTF-8 bytes of a code point in U+10000..U+10FFFF whose base-64
      digits are `x0 x1 x2 x3`. */
  function Escape4(x0: nat, x1: nat, x2: nat, x3: nat): string
    requires x0 < 8 && x1 < 64 && x2 < 64 && x3 < 64
  {
    PercentByte(0xF0 + x0) + PercentByte(0x80 + x1) + PercentByte(0x80 + x2) + PercentByte(0x80 + x3)
  }

  /** The escape of one code point: its UTF-8 encoding, byte by byte. */
  function EscapeChar(c: char): string {
    var n := c as int;
    if n < 0x80 then PercentByte(n)
    else if n < 0x800 then Escape2(n / 64, n % 64)
    else if n < 0x1_0000 then Escape3(n / 64 / 64, n / 64 % 64, n % 64)
    else Escape4(n / 64 / 64 / 64, n / 64 / 64 % 64, n / 64 % 64, n % 64)
  }

  function EncodeChar(c: char): string {
    if IsUnreserved(c) then [c] else EscapeChar(c)
  }

  /** Characters that can appear in the output of `encodeURIComponent`. */
  predicate IsEncodedChar(c: char) {
    IsUnreserved(c) || c == '%' || IsUpperHexDigit(c)
  }

  /** `encodeURIComponent(s)`. Its output uses only unreserved characters,
      `%` and hexadecimal digits, so none of the query delimiters `?`, `&`,
      `=` and `#` occurs in it. */
  function EncodeUriComponent(s: string): (r: string)
    ensures forall i :: 0 <= i < |r| ==> IsEncodedChar(r[i])
    ensures |s| <= |r|
  {
    if s == [] then []
    else
      var head := EncodeChar(s[0]);
      var tail := EncodeUriComponent(s[1..]);
      EncodeCharIsEncoded(s[0]);
      ConcatEncoded(head, tail);
      head + tail
  }

  /** One encoding step writes at least one character, each of them one
      that may appear in the output. */
  lemma EncodeCharIsEncoded(c: char)
    ensures 1 <= |EncodeChar(c)| && forall i :: 0 <= i < |EncodeChar(c)| ==> IsEncodedChar(EncodeChar(c)[i])
  {
    var n := c as int;
    if IsUnreserved(c) || n < 0x80 {
    } else if n < 0x800 {
      ConcatEncoded(PercentByte(0xC0 + n / 64), PercentByte(0x80 + n % 64));
    } else if n < 0x1_0000 {
      Escape3IsEncoded(n / 64 / 64, n / 64 % 64, n % 64);
    } else {
      Escape4IsEncoded(n / 64 / 64 / 64, n / 64 / 64 % 64, n / 64 % 64, n % 64);
    }
  }

  lemma Escape3IsEncoded(x0: nat, x1: nat, x2: nat)
    requires x0 < 16 && x1 < 64 && x2 < 64
    ensures forall i :: 0 <= i < |Escape3(x0, x1, x2)| ==> IsEncodedChar(Escape3(x0, x1, x2)[i])
  {
    var p0, p1, p2 := PercentByte(0xE0 + x0), PercentByte(0x80 + x1), PercentByte(0x80 + x2);
    ConcatEncoded(p0, p1);
    ConcatEncoded(p0 + p1, p2);
  }

  lemma Escape4IsEncoded(x0: nat, x1: nat, x2: nat, x3: nat)
    requires x0 < 8 && x1 < 64 && x2 < 64 && x3 < 64
    ensures forall i :: 0 <= i < |Escape4(x0, x1, x2, x3)| ==> IsEncodedChar(Escape4(x0, x1, x2, x3)[i])
  {
    var p0, p1, p2, p3 := PercentByte(0xF0 + x0), PercentByte(0x80 + x1), PercentByte(0x80 + x2), PercentByte(0x80 + x3);
    ConcatEncoded(p0, p1);
    ConcatEncoded(p0 + p1, p2);
    ConcatEncoded(p0 + p1 + p2, p3);
  }

  lemma ConcatEncoded(x: string, y: string)
    requires forall i :: 0 <= i < |x| ==> IsEncodedChar(x[i])
    requires forall i :: 0 <= i < |y| ==> IsEncodedChar(y[i])
    ensures forall i :: 0 <= i < |x + y| ==> IsEncodedChar((x + y)[i])
  {
  }

  /** The encoded string can stand as one query value: it holds none of the
      delimiters `&`, `=`, `?` and `#`. */
  lemma EncodedHasNoQueryDelimiters(s: string)
    ensures var e := EncodeUriComponent(s);
            '&' !in e && '=' !in e && '?' !in e && '#' !in e
  {
    var e := EncodeUriComponent(s);
    forall i | 0 <= i < |e| ensures e[i] != '&' && e[i] != '=' && e[i] != '?' && e[i] != '#' {
      assert IsEncodedChar(e[i]);
    }
  }

  /** The byte written as `%XY` at position `i`, if there is one. */
  function ByteAt(s: string, i: nat): (r: Option<nat>)
    ensures r.Some? ==> r.value < 256 && i + 3 <= |s|
  {
    if i + 3 <= |s| && s[i] == '%' && HexValue(s[i + 1]).Some? && HexValue(s[i + 2]).Some? then
      Some(16 * HexValue(s[i + 1]).value + HexValue(s[i + 2]).value)
    else None
  }

  /** The continuation byte `10xxxxxx` at position `i`, as its six bits. */
  function ContinuationAt(s: string, i: nat): (r: Option<nat>)
    ensures r.Some? ==> r.value < 64 && i + 3 <= |s|
  {
    match ByteAt(s, i)
    case Some(b) => if 0x80 <= b < 0xC0 then Some(b - 0x80) else None
    case None => None
  }

  predicate IsScalarValue(n: int) {
    (0 <= n < 0xD800) || (0xE000 <= n < 0x11_0000)
  }

  /** A two-byte sequence whose lead byte carries `lead`. */
  function DecodeTwo(s: string, lead: nat): Option<(char, nat)> {
    if ContinuationAt(s, 3).Some? then
      var n := lead * 64 + ContinuationAt(s, 3).value;
      if 0x80 <= n < 0x800 then Some((n as char, 6)) else None
    else None
  }

  /** A three-byte sequence whose lead byte carries `lead`. */
  function DecodeThree(s: string, lead: nat): Option<(char, nat)> {
    if ContinuationAt(s, 3).Some? && ContinuationAt(s, 6).Some? then
      var n := lead * 4096 + ContinuationAt(s, 3).value * 64 + ContinuationAt(s, 6).value;
      if 0x800 <= n < 0x1_0000 && IsScalarValue(n) then Some((n as char, 9)) else None
    else None
  }

  /** A four-byte sequence whose lead byte carries `lead`. */
  function DecodeFour(s: string, lead: nat): Option<(char, nat)> {
    if ContinuationAt(s, 3).Some? && ContinuationAt(s, 6).Some? && ContinuationAt(s, 9).Some? then
      var n := lead * 262144 + ContinuationAt(s, 3).value * 4096
               + ContinuationAt(s, 6).value * 64 + ContinuationAt(s, 9).value;
      if 0x1_0000 <= n < 0x11_0000 then Some((n as char, 12)) else None
    else None
  }

  /** One code point read from the front of `s` and the number of input
      characters it took; UTF-8 sequences that are truncated, overlong, or
      encode a surrogate or a value beyond U+10FFFF are rejected. */
  function DecodeFirst(s: string): (r: Option<(char, nat)>)
    requires s != []
    ensures r.Some? ==> 1 <= r.value.1 <= |s|
  {
    if s[0] != '%' then Some((s[0], 1))
    else if ByteAt(s, 0).None? then None
    else
      var b0 := ByteAt(s, 0).value;
      if b0 < 0x80 then Some((b0 as char, 3))
      else if 0xC0 <= b0 < 0xE0 then DecodeTwo(s, b0 - 0xC0)
      else if 0xE0 <= b0 < 0xF0 then DecodeThree(s, b0 - 0xE0)
      else if 0xF0 <= b0 < 0xF8 then DecodeFour(s, b0 - 0xF0)
      else None
  }

  /** `decodeURIComponent(s)`, or None where it throws `URIError`. */
  function DecodeUriComponent(s: string): (r: Option<string>)
    decreases |s|
  {
    if s == [] then Some([])
    else match DecodeFirst(s)
      case None => None
      case Some((c, k)) =>
        match DecodeUriComponent(s[k..])
        case None => None
        case Some(tail) => Some([c] + tail)
  }

  lemma HexRoundTrip(d: nat)
    requires d < 16
    ensures HexValue(HexDigit(d)) == Some(d)
  {
  }

  /** `%XY` at the front of a string is read back as its byte. */
  lemma ByteAtFront(b: nat, rest: string)
    requires b < 256
    ensures ByteAt(PercentByte(b) + rest, 0) == Some(b)
  {
    var s := PercentByte(b) + rest;
    assert s[0] == '%' && s[1] == HexDigit(b / 16) && s[2] == HexDigit(b % 16);
    HexRoundTrip(b / 16);
    HexRoundTrip(b % 16);
  }

  /** Reading a byte does not depend on what comes before it. */
  lemma ByteAtShift(p: string, s: string, i: nat)
    ensures ByteAt(p + s, |p| + i) == ByteAt(s, i)
  {
    if i + 3 <= |s| {
      assert (p + s)[|p| + i] == s[i] && (p + s)[|p| + i + 1] == s[i + 1] && (p + s)[|p| + i + 2] == s[i + 2];
    }
  }

  /** Two-byte sequences: the lead byte carries the top five bits. */
  lemma DecodeEscape2(x0: nat, x1: nat, rest: string)
    requires x0 < 32 && x1 < 64 && 0x80 <= x0 * 64 + x1
    ensures |Escape2(x0, x1)| == 6
    ensures DecodeFirst(Escape2(x0, x1) + rest) == Some(((x0 * 64 + x1) as char, 6))
  {
    var p0, p1 := PercentByte(0xC0 + x0), PercentByte(0x80 + x1);
    var s := p0 + (p1 + rest);
    assert Escape2(x0, x1) + rest == s;
    ByteAtFront(0xC0 + x0, p1 + rest);
    ContinuationAtFront(p0, x1, rest);
    assert DecodeTwo(s, x0) == Some(((x0 * 64 + x1) as char, 6));
  }

  lemma DecodeFirstThree(s: string, lead: nat, c1: nat, c2: nat)
    requires s != [] && lead < 16 && ByteAt(s, 0) == Some(0xE0 + lead)
    requires ContinuationAt(s, 3) == Some(c1) && ContinuationAt(s, 6) == Some(c2)
    requires 0x800 <= lead * 4096 + c1 * 64 + c2 && IsScalarValue(lead * 4096 + c1 * 64 + c2)
    ensures DecodeFirst(s) == Some(((lead * 4096 + c1 * 64 + c2) as char, 9))
  {
    assert DecodeThree(s, lead) == Some(((lead * 4096 + c1 * 64 + c2) as char, 9));
  }

  lemma DecodeFirstFour(s: string, lead: nat, c1: nat, c2: nat, c3: nat)
    requires s != [] && lead < 8 && ByteAt(s, 0) == Some(0xF0 + lead)
    requires ContinuationAt(s, 3) == Some(c1) && ContinuationAt(s, 6) == Some(c2)
    requires ContinuationAt(s, 9) == Some(c3)
    requires 0x1_0000 <= lead * 262144 + c1 * 4096 + c2 * 64 + c3 < 0x11_0000
    ensures DecodeFirst(s) == Some(((lead * 262144 + c1 * 4096 + c2 * 64 + c3) as char, 12))
  {
    assert DecodeFour(s, lead) == Some(((lead * 262144 + c1 * 4096 + c2 * 64 + c3) as char, 12));
  }

  /** A code point below U+10000 in base 64, as the three-byte form splits it. */
  lemma SixBitDigits3(n: nat)
    requires n < 0x1_0000
    ensures n / 64 / 64 < 16 && n / 64 % 64 < 64 && n % 64 < 64
    ensures (n / 64 / 64) * 4096 + (n / 64 % 64) * 64 + n % 64 == n
  {
    var q := n / 64;
    assert n == 64 * q + n % 64 && q == 64 * (q / 64) + q % 64;
  }

  /** A code point below U+110000 in base 64, as the four-byte form splits it. */
  lemma SixBitDigits4(n: nat)
    requires n < 0x11_0000
    ensures n / 64 / 64 / 64 < 8
    ensures (n / 64 / 64 / 64) * 262144 + (n / 64 / 64 % 64) * 4096 + (n / 64 % 64) * 64 + n % 64 == n
  {
    var q := n / 64;
    var r := q / 64;
    assert n == 64 * q + n % 64 && q == 64 * r + q % 64 && r == 64 * (r / 64) + r % 64;
  }

  /** Three-byte sequences: the lead byte carries the top four bits. */
  lemma DecodeEscape3(x0: nat, x1: nat, x2: nat, rest: string)
    requires x0 < 16 && x1 < 64 && x2 < 64
    requires 0x800 <= x0 * 4096 + x1 * 64 + x2 && IsScalarValue(x0 * 4096 + x1 * 64 + x2)
    ensures |Escape3(x0, x1, x2)| == 9
    ensures DecodeFirst(Escape3(x0, x1, x2) + rest) == Some(((x0 * 4096 + x1 * 64 + x2) as char, 9))
  {
    var p0, p1, p2 := PercentByte(0xE0 + x0), PercentByte(0x80 + x1), PercentByte(0x80 + x2);
    var s := p0 + (p1 + (p2 + rest));
    Regroup3(p0, p1, p2, rest);
    ByteAtFront(0xE0 + x0, p1 + (p2 + rest));
    ContinuationAtFront(p0, x1, p2 + rest);
    ContinuationAtSecond(p0, p1, x2, rest);
    DecodeFirstThree(s, x0, x1, x2);
  }

  /** Four-byte sequences: the lead byte carries the top three bits. */
  lemma DecodeEscape4(x0: nat, x1: nat, x2: nat, x3: nat, rest: string)
    requires x0 < 8 && x1 < 64 && x2 < 64 && x3 < 64
    requires 0x1_0000 <= x0 * 262144 + x1 * 4096 + x2 * 64 + x3 < 0x11_0000
    ensures |Escape4(x0, x1, x2, x3)| == 12
    ensures DecodeFirst(Escape4(x0, x1, x2, x3) + rest) == Some(((x0 * 262144 + x1 * 4096 + x2 * 64 + x3) as char, 12))
  {
    var p0, p1, p2, p3 := PercentByte(0xF0 + x0), PercentByte(0x80 + x1), PercentByte(0x80 + x2), PercentByte(0x80 + x3);
    var s := p0 + (p1 + (p2 + (p3 + rest)));
    Regroup4(p0, p1, p2, p3, rest);
    ByteAtFront(0xF0 + x0, p1 + (p2 + (p3 + rest)));
    ContinuationAtFront(p0, x1, p2 + (p3 + rest));
    ContinuationAtSecond(p0, p1, x2, p3 + rest);
    ContinuationAtSecond(p0 + p1, p2, x3, rest);
    DecodeFirstFour(s, x0, x1, x2, x3);
  }

  lemma Regroup3(a: string, b: string, c: string, rest: string)
    ensures a + b + c + rest == a + (b + (c + rest))
  {
  }

  lemma Regroup4(a: string, b: string, c: string, d: string, rest: string)
    ensures a + b + c + d + rest == a + (b + (c + (d + rest)))
    ensures a + (b + (c + (d + rest))) == (a + b) + (c + (d + rest))
  {
  }

  /** A continuation byte right after a three-character prefix. */
  lemma ContinuationAtFront(p: string, x: nat, rest: string)
    requires |p| == 3 && x < 64
    ensures ContinuationAt(p + (PercentByte(0x80 + x) + rest), 3) == Some(x)
  {
    var s := PercentByte(0x80 + x) + rest;
    ByteAtFront(0x80 + x, rest);
    ByteAtShift(p, s, 0);
    assert ByteAt(p + s, 3) == Some(0x80 + x);
  }

  /** A continuation byte after a prefix and one more escape. */
  lemma ContinuationAtSecond(p: string, q: string, x: nat, rest: string)
    requires |q| == 3 && x < 64
    ensures ContinuationAt(p + (q + (PercentByte(0x80 + x) + rest)), |p| + 3) == Some(x)
  {
    ContinuationAtFront(q, x, rest);
    ByteAtShift(p, q + (PercentByte(0x80 + x) + rest), 3);
  }

  /** The base-64 digits a two-byte escape is written from. */
  lemma EncodeCharAsEscape2(c: char) returns (x0: nat, x1: nat)
    requires 0x80 <= c as int < 0x800
    ensures x0 < 32 && x1 < 64 && x0 * 64 + x1 == c as int
    ensures EncodeChar(c) == Escape2(x0, x1)
  {
    x0, x1 := c as int / 64, c as int % 64;
  }

  /** The base-64 digits a three-byte escape is written from. */
  lemma EncodeCharAsEscape3(c: char) returns (x0: nat, x1: nat, x2: nat)
    requires 0x800 <= c as int < 0x1_0000
    ensures x0 < 16 && x1 < 64 && x2 < 64 && x0 * 4096 + x1 * 64 + x2 == c as int
    ensures EncodeChar(c) == Escape3(x0, x1, x2)
  {
    var n := c as int;
    SixBitDigits3(n);
    x0, x1, x2 := n / 64 / 64, n / 64 % 64, n % 64;
  }

  /** The base-64 digits a four-byte escape is written from. */
  lemma EncodeCharAsEscape4(c: char) returns (x0: nat, x1: nat, x2: nat, x3: nat)
    requires 0x1_0000 <= c as int
    ensures x0 < 8 && x1 < 64 && x2 < 64 && x3 < 64
    ensures x0 * 262144 + x1 * 4096 + x2 * 64 + x3 == c as int
    ensures EncodeChar(c) == Escape4(x0, x1, x2, x3)
  {
    var n := c as int;
    SixBitDigits4(n);
    x0, x1, x2, x3 := n / 64 / 64 / 64, n / 64 / 64 % 64, n / 64 % 64, n % 64;
  }

  /** Decoding reads back exactly the character one encoding step wrote. */
  lemma DecodeEncodeChar(c: char, rest: string)
    ensures DecodeFirst(EncodeChar(c) + rest) == Some((c, |EncodeChar(c)|))
  {
    var n := c as int;
    if IsUnreserved(c) {
    } else if n < 0x80 {
      ByteAtFront(n, rest);
    } else if n < 0x800 {
      var x0, x1 := EncodeCharAsEscape2(c);
      DecodeEscape2(x0, x1, rest);
    } else if n < 0x1_0000 {
      var x0, x1, x2 := EncodeCharAsEscape3(c);
      DecodeEscape3(x0, x1, x2, rest);
    } else {
      var x0, x1, x2, x3 := EncodeCharAsEscape4(c);
      DecodeEscape4(x0, x1, x2, x3, rest);
    }
  }

  /** `decodeURIComponent(encodeURIComponent(s)) === s`: the encoding is
      lossless, so the proxy endpoint recovers the original URL. */
  lemma {:induction false} DecodeEncodeRoundTrip(s: string)
    ensures DecodeUriComponent(EncodeUriComponent(s)) == Some(s)
    decreases |s|
  {
    if s != [] {
      var head := EncodeChar(s[0]);
      var e := EncodeUriComponent(s);
      assert e == head + EncodeUriComponent(s[1..]);
      DecodeEncodeChar(s[0], EncodeUriComponent(s[1..]));
      assert e[|head|..] == EncodeUriComponent(s[1..]);
      DecodeEncodeRoundTrip(s[1..]);
      assert [s[0]] + s[1..] == s;
    }
  }

  /** Two strings with the same encoding are equal. */
  lemma EncodeUriComponentInjective(s: string, t: string)
    requires EncodeUriComponent(s) == EncodeUriComponent(t)
    ensures s == t
  {
    DecodeEncodeRoundTrip(s);
    DecodeEncodeRoundTrip(t);
  }
}
