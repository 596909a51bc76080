/** encodeURIComponent and decodeURIComponent of ECMA-262 (section 19.2.6,
    URI Handling Functions), for strings of Unicode scalar values. A character
    of the unescaped set is kept; every other character is encoded as the
    UTF-8 octets of its code point, each written `%XY` with two upper-case
    hexadecimal digits (percent-encoding, section 2.1 of RFC 3986). Because a
    Dafny `char` is a scalar value, the lone surrogates on which the original
    throws URIError cannot occur. */
module Uri {
  import opened Wrappers

  type Byte = b: int | 0 <= b < 256

  /** The characters encodeURIComponent leaves alone: uriAlpha, DecimalDigit
      and uriMark `- _ . ! ~ * ' ( )`. */
  predicate IsUnreserved(c: char)
  {
    || 'A' <= c <= 'Z' || 'a' <= c <= 'z' || '0' <= c <= '9'
    || c == '-' || c == '_' || c == '.' || c == '!' || c == '~'
    || c == '*' || c == '\'' || c == '(' || c == ')'
  }

  predicate IsUpperHex(c: char)
  {
    '0' <= c <= '9' || 'A' <= c <= 'F'
  }

  /* ------------------------------------------------------------------ */
  /*  Encoding                                                          */
  /* ------------------------------------------------------------------ */

  /** The UTF-8 octets of a code point (RFC 3629): 1 to 4 of them. */
  function Utf8(c: char): (r: seq<Byte>)
    ensures 1 <= |r| <= 4
    ensures |r| == 1 <==> c as int < 0x80
    ensures |r| == 2 <==> 0x80 <= c as int < 0x800
    ensures |r| == 3 <==> 0x800 <= c as int < 0x10000
    ensures |r| == 1 ==> r[0] < 0x80
    ensures |r| == 2 ==> 0xC0 <= r[0] < 0xE0
    ensures |r| == 3 ==> 0xE0 <= r[0] < 0xF0
    ensures |r| == 4 ==> 0xF0 <= r[0] < 0xF8
    ensures forall k :: 1 <= k < |r| ==> 0x80 <= r[k] < 0xC0
  {
    var n := c as int;
    if n < 0x80 then [n]
    else if n < 0x800 then [0xC0 + n / 64, 0x80 + n % 64]
    else if n < 0x10000 then [0xE0 + n / 64 / 64, 0x80 + n / 64 % 64, 0x80 + n % 64]
    else [0xF0 + n / 64 / 64 / 64, 0x80 + n / 64 / 64 % 64, 0x80 + n / 64 % 64, 0x80 + n % 64]
  }

  function HexDigit(d: int): (c: char)
    requires 0 <= d < 16
  {
    if d < 10 then ('0' as int + d) as char else ('A' as int + d - 10) as char
  }

  /** One octet as `%XY`. */
  function PercentByte(b: Byte): string
  {
    ['%', HexDigit(b / 16), HexDigit(b % 16)]
  }

  function PercentBytes(bs: seq<Byte>): string
  {
    if bs == [] then [] else PercentByte(bs[0]) + PercentBytes(bs[1..])
  }

  /** What encodeURIComponent writes for one character. */
  function EncodeChar(c: char): (r: string)
    ensures IsUnreserved(c) ==> r == [c]
    ensures !IsUnreserved(c) ==> |r| == 3 * |Utf8(c)| && r[0] == '%' && IsPercentEncoded(r)
  {
    PercentBytesEncoded(Utf8(c));
    if IsUnreserved(c) then [c] else PercentBytes(Utf8(c))
  }

  /** The language of encodeURIComponent's output: unreserved characters,
      and `%` each followed by two upper-case hexadecimal digits. */
  predicate IsPercentEncoded(r: string)
  {
    && (forall i :: 0 <= i < |r| ==> IsUnreserved(r[i]) || r[i] == '%' || IsUpperHex(r[i]))
    && (forall i :: 0 <= i < |r| && r[i] == '%' ==> i + 2 < |r| && IsUpperHex(r[i + 1]) && IsUpperHex(r[i + 2]))
  }

  lemma PercentEncodedConcat(a: string, b: string)
    requires IsPercentEncoded(a) && IsPercentEncoded(b)
    ensures IsPercentEncoded(a + b)
  {
    var r := a + b;
    forall i | 0 <= i < |r| && r[i] == '%' ensures i + 2 < |r| && IsUpperHex(r[i + 1]) && IsUpperHex(r[i + 2]) {
      if i < |a| {
        assert a[i] == '%';
      } else {
        assert b[i - |a|] == '%';
      }
    }
  }

  lemma {:induction false} PercentBytesEncoded(bs: seq<Byte>)
    ensures IsPercentEncoded(PercentBytes(bs))
    ensures |PercentBytes(bs)| == 3 * |bs|
  {
    if bs != [] {
      PercentBytesEncoded(bs[1..]);
      PercentEncodedConcat(PercentByte(bs[0]), PercentBytes(bs[1..]));
    }
  }

  /** encodeURIComponent. The result is percent-encoded text and at least as
      long as the input. */
  function EncodeURIComponent(s: string): (r: string)
    ensures IsPercentEncoded(r)
    ensures |r| >= |s|
  {
    if s == [] then []
    else
      var e := EncodeChar(s[0]);
      var rest := EncodeURIComponent(s[1..]);
      PercentBytesEncoded(Utf8(s[0]));
      PercentEncodedConcat(e, rest);
      e + rest
  }

  lemma {:induction false} EncodeConcat(a: string, b: string)
    ensures EncodeURIComponent(a + b) == EncodeURIComponent(a) + EncodeURIComponent(b)
  {
    if a == [] {
      assert a + b == b;
    } else {
      assert (a + b)[0] == a[0] && (a + b)[1..] == a[1..] + b;
      EncodeConcat(a[1..], b);
    }
  }

  /** A space is written `%20`. */
  lemma EncodeSpace()
    ensures EncodeURIComponent(" ") == "%20"
  {
    assert Utf8(' ') == [32];
    assert PercentBytes([32]) == PercentByte(32) + PercentBytes([]);
  }

  /** A character beyond ASCII is written as its UTF-8 octets: `é` (U+00E9)
      is `%C3%A9`. */
  lemma EncodeTwoOctetChar(s: string)
    requires s == "\U{E9}"
    ensures EncodeURIComponent(s) == "%C3%A9"
  {
    assert Utf8(s[0]) == [0xC3, 0xA9];
    assert PercentBytes([0xC3, 0xA9]) == PercentByte(0xC3) + (PercentByte(0xA9) + PercentBytes([]));
  }

  /** Percent-encoded text holds none of the characters that would end a path
      segment, an attribute value or a tag, or begin a character reference:
      `/`, `"`, `<`, `>`, space and `&`. */
  lemma PercentEncodedIsSafe(r: string)
    requires IsPercentEncoded(r)
    ensures '/' !in r && '"' !in r && '<' !in r && '>' !in r && ' ' !in r && '&' !in r
  {
    forall c | c in r ensures c != '/' && c != '"' && c != '<' && c != '>' && c != ' ' && c != '&' {
      var i :| 0 <= i < |r| && r[i] == c;
    }
  }

  /** An encoded segment is safe inside a path and inside a quoted attribute. */
  lemma EncodeURIComponentIsSafe(s: string)
    ensures var r := EncodeURIComponent(s); '/' !in r && '"' !in r && '<' !in r && '>' !in r && ' ' !in r && '&' !in r
  {
    PercentEncodedIsSafe(EncodeURIComponent(s));
  }

  /** A string appears verbatim in its encoding exactly when every character
      of it is in the unescaped set. */
  lemma {:induction false} EncodeIdentityIffUnreserved(s: string)
    ensures EncodeURIComponent(s) == s <==> forall i :: 0 <= i < |s| ==> IsUnreserved(s[i])
  {
    if s != [] {
      EncodeIdentityIffUnreserved(s[1..]);
      PercentBytesEncoded(Utf8(s[0]));
      var e, rest := EncodeChar(s[0]), EncodeURIComponent(s[1..]);
      if IsUnreserved(s[0]) {
        assert s == [s[0]] + s[1..];
        if e + rest == s {
          assert rest == s[1..];
        }
        forall i | 1 <= i < |s| ensures s[i] == s[1..][i - 1] { }
      } else {
        assert |e| >= 3;
        assert |e + rest| > |s|;
      }
    }
  }

  /* ------------------------------------------------------------------ */
  /*  Decoding                                                          */
  /* ------------------------------------------------------------------ */

  /** A hexadecimal digit in either case, as decodeURIComponent accepts it. */
  function HexValue(c: char): (r: Option<int>)
    ensures r.Some? ==> 0 <= r.value < 16
  {
    if '0' <= c <= '9' then Some(c as int - '0' as int)
    else if 'A' <= c <= 'F' then Some(c as int - 'A' as int + 10)
    else if 'a' <= c <= 'f' then Some(c as int - 'a' as int + 10)
    else None
  }

  /** The octet written `%XY` at offset `k`, if there is one. */
  function ByteAt(s: string, k: nat): Option<Byte>
  {
    if k + 3 <= |s| && s[k] == '%' && HexValue(s[k + 1]).Some? && HexValue(s[k + 2]).Some? then
      Some(16 * HexValue(s[k + 1]).value + HexValue(s[k + 2]).value)
    else
      None
  }

  /** The low six bits of a UTF-8 continuation octet (10xxxxxx) at offset `k`. */
  function ContinuationAt(s: string, k: nat): (r: Option<int>)
    ensures r.Some? ==> 0 <= r.value < 64
  {
    match ByteAt(s, k)
    case Some(b) => if 0x80 <= b < 0xC0 then Some(b - 0x80) else None
    case None => None
  }

  /** Decodes the escape sequence at the start of `s` into one character and
      the number of input characters it spans. Fails (URIError in the original)
      on a malformed `%XY`, a leading octet with one or more than four leading
      one bits, a missing continuation octet, an overlong form, a surrogate,
      or a code point above U+10FFFF. */
  function DecodeEscape(s: string): (r: Option<(char, nat)>)
    ensures r.Some? ==> 3 <= r.value.1 <= |s|
  {
    match ByteAt(s, 0)
    case None => None
    case Some(b) =>
      if b < 0x80 then
        Some((b as char, 3))
      else if 0xC0 <= b < 0xE0 then
        match ContinuationAt(s, 3)
        case None => None
        case Some(c1) =>
          var cp := (b - 0xC0) * 64 + c1;
          if cp < 0x80 then None else Some((cp as char, 6))
      else if 0xE0 <= b < 0xF0 then
        match (ContinuationAt(s, 3), ContinuationAt(s, 6))
        case (Some(c1), Some(c2)) =>
          var cp := ((b - 0xE0) * 64 + c1) * 64 + c2;
          if cp < 0x800 || 0xD800 <= cp < 0xE000 then None else Some((cp as char, 9))
        case _ => None
      else if 0xF0 <= b < 0xF8 then
        match (ContinuationAt(s, 3), ContinuationAt(s, 6), ContinuationAt(s, 9))
        case (Some(c1), Some(c2), Some(c3)) =>
          var cp := (((b - 0xF0) * 64 + c1) * 64 + c2) * 64 + c3;
          if cp < 0x10000 || cp > 0x10FFFF then None else Some((cp as char, 12))
        case _ => None
      else
        None
  }

  /** decodeURIComponent (the reserved set is empty, so every escape is
      decoded); None where the original throws URIError. */
  function DecodeURIComponent(s: string): Option<string>
    decreases |s|
  {
    if s == [] then
      Some([])
    else if s[0] != '%' then
      match DecodeURIComponent(s[1..])
      case None => None
      case Some(t) => Some([s[0]] + t)
    else
      match DecodeEscape(s)
      case None => None
      case Some((c, n)) =>
        match DecodeURIComponent(s[n..])
        case None => None
        case Some(t) => Some([c] + t)
  }

  /* ------------------------------------------------------------------ */
  /*  Round trip                                                        */
  /* ------------------------------------------------------------------ */

  lemma HexRoundTrip(d: int)
    requires 0 <= d < 16
    ensures HexValue(HexDigit(d)) == Some(d)
  {
  }

  /** `%XY` of octet `b`, written at offset `|pre|`, reads back as `b`. */
  lemma ByteAtPercentByte(pre: string, b: Byte, t: string)
    ensures ByteAt(pre + PercentByte(b) + t, |pre|) == Some(b)
  {
    var s := pre + PercentByte(b) + t;
    var k := |pre|;
    assert s[k] == '%' && s[k + 1] == HexDigit(b / 16) && s[k + 2] == HexDigit(b % 16);
    HexRoundTrip(b / 16);
    HexRoundTrip(b % 16);
  }

  lemma ByteAtShift(p: string, s: string, k: nat)
    ensures ByteAt(p + s, |p| + k) == ByteAt(s, k)
  {
    var ps := p + s;
    if k + 3 <= |s| {
      assert ps[|p| + k] == s[k] && ps[|p| + k + 1] == s[k + 1] && ps[|p| + k + 2] == s[k + 2];
    }
  }

  /** Reading back consecutive `%XY` triples. */
  lemma {:induction false} ReadPercentBytes(bs: seq<Byte>, t: string)
    ensures forall k :: 0 <= k < |bs| ==> ByteAt(PercentBytes(bs) + t, 3 * k) == Some(bs[k])
  {
    if bs != [] {
      var p, rest := PercentByte(bs[0]), PercentBytes(bs[1..]);
      ReadPercentBytes(bs[1..], t);
      assert PercentBytes(bs) + t == [] + p + (rest + t);
      ByteAtPercentByte([], bs[0], rest + t);
      forall k | 1 <= k < |bs| ensures ByteAt(PercentBytes(bs) + t, 3 * k) == Some(bs[k]) {
        assert PercentBytes(bs) + t == p + (rest + t);
        ByteAtShift(p, rest + t, 3 * (k - 1));
        assert bs[1..][k - 1] == bs[k];
      }
    }
  }

  lemma Utf8Arith2(n: int)
    requires 0x80 <= n < 0x800
    ensures (n / 64) * 64 + n % 64 == n
  {
  }

  lemma Utf8Arith3(n: int)
    requires 0x800 <= n < 0x10000
    ensures ((n / 64 / 64) * 64 + n / 64 % 64) * 64 + n % 64 == n
  {
    var q := n / 64;
    assert n == q * 64 + n % 64;
    assert q == (q / 64) * 64 + q % 64;
  }

  lemma Utf8Arith4(n: int)
    requires 0x10000 <= n < 0x110000
    ensures (((n / 64 / 64 / 64) * 64 + n / 64 / 64 % 64) * 64 + n / 64 % 64) * 64 + n % 64 == n
  {
    var q := n / 64;
    var q2 := q / 64;
    assert n == q * 64 + n % 64;
    assert q == q2 * 64 + q % 64;
    assert q2 == (q2 / 64) * 64 + q2 % 64;
  }

  /** The octets of a character's escape, read back from the encoded text. */
  lemma ReadEscape(c: char, t: string)
    requires !IsUnreserved(c)
    ensures var s, bs := EncodeChar(c) + t, Utf8(c);
      && |EncodeChar(c)| == 3 * |bs|
      && forall k :: 0 <= k < |bs| ==> ByteAt(s, 3 * k) == Some(bs[k])
  {
    ReadPercentBytes(Utf8(c), t);
    PercentBytesEncoded(Utf8(c));
  }

  lemma DecodeEscape2(c: char, t: string)
    requires 0x80 <= c as int < 0x800
    ensures DecodeEscape(EncodeChar(c) + t) == Some((c, |EncodeChar(c)|))
  {
    var n, s, bs := c as int, EncodeChar(c) + t, Utf8(c);
    ReadEscape(c, t);
    assert ByteAt(s, 3 * 0) == Some(bs[0]);
    assert ByteAt(s, 3 * 1) == Some(bs[1]);
    Utf8Arith2(n);
  }

  lemma DecodeEscape3(c: char, t: string)
    requires 0x800 <= c as int < 0x10000
    ensures DecodeEscape(EncodeChar(c) + t) == Some((c, |EncodeChar(c)|))
  {
    var n, s, bs := c as int, EncodeChar(c) + t, Utf8(c);
    ReadEscape(c, t);
    assert ByteAt(s, 3 * 0) == Some(bs[0]);
    assert ByteAt(s, 3 * 1) == Some(bs[1]);
    assert ByteAt(s, 3 * 2) == Some(bs[2]);
    Utf8Arith3(n);
  }

  lemma DecodeEscape4(c: char, t: string)
    requires 0x10000 <= c as int
    ensures DecodeEscape(EncodeChar(c) + t) == Some((c, |EncodeChar(c)|))
  {
    var n, s, bs := c as int, EncodeChar(c) + t, Utf8(c);
    ReadEscape(c, t);
    assert ByteAt(s, 3 * 0) == Some(bs[0]);
    assert ByteAt(s, 3 * 1) == Some(bs[1]);
    assert ByteAt(s, 3 * 2) == Some(bs[2]);
    assert ByteAt(s, 3 * 3) == Some(bs[3]);
    Utf8Arith4(n);
  }

  /** The escape sequence encodeURIComponent writes for a character decodes
      back to that character and spans exactly the written text. */
  lemma DecodeEscapeOfEncodeChar(c: char, t: string)
    requires !IsUnreserved(c)
    ensures DecodeEscape(EncodeChar(c) + t) == Some((c, |EncodeChar(c)|))
  {
    var n := c as int;
    if n < 0x80 {
      ReadEscape(c, t);
      assert ByteAt(EncodeChar(c) + t, 3 * 0) == Some(Utf8(c)[0]);
    } else if n < 0x800 {
      DecodeEscape2(c, t);
    } else if n < 0x10000 {
      DecodeEscape3(c, t);
    } else {
      DecodeEscape4(c, t);
    }
  }

  lemma DecodeOfEncodeChar(c: char, t: string)
    ensures DecodeURIComponent(EncodeChar(c) + t) ==
      match DecodeURIComponent(t) case None => None case Some(u) => Some([c] + u)
  {
    var e := EncodeChar(c);
    var s := e + t;
    if IsUnreserved(c) {
      assert s[0] == c && s[1..] == t;
    } else {
      PercentBytesEncoded(Utf8(c));
      assert s[0] == e[0] == '%';
      DecodeEscapeOfEncodeChar(c, t);
      assert s[|e|..] == t;
    }
  }

  /** Round trip: decodeURIComponent inverts encodeURIComponent. */
  lemma {:induction false} DecodeEncodeRoundTrip(s: string)
    ensures DecodeURIComponent(EncodeURIComponent(s)) == Some(s)
  {
    if s != [] {
      DecodeEncodeRoundTrip(s[1..]);
      DecodeOfEncodeChar(s[0], EncodeURIComponent(s[1..]));
      assert s == [s[0]] + s[1..];
    }
  }
}
