/** ECMAScript's `encodeURIComponent` and `decodeURIComponent` (ECMA-262,
    URI handling functions): percent-encoding as in section 2.1 of RFC 3986,
    over the UTF-8 form of each character (RFC 3629).  Encoding keeps the
    letters, digits and `-_.!~*'()` and writes every other character as the
    `%XX` escapes of its UTF-8 bytes, with upper-case hex digits.  Decoding
    turns every escape back (`+` stays `+`) and fails, as the built-in throws a
    URIError, on a truncated escape, a non-hex digit or bytes that are not the
    UTF-8 form of a Unicode scalar value. */
module Uri {
  import opened Wrappers

  type Byte = b: int | 0 <= b < 256

  /** The characters `encodeURIComponent` leaves alone. */
  predicate IsUnreserved(c: char)
  {
    ('A' <= c <= 'Z') || ('a' <= c <= 'z') || ('0' <= c <= '9')
    || c == '-' || c == '_' || c == '.' || c == '!' || c == '~' || c == '*'
    || c == '\'' || c == '(' || c == ')'
  }

  /** The UTF-8 bytes of one Unicode scalar value. */
  function Utf8(c: char): (bs: seq<Byte>)
    ensures 1 <= |bs| <= 4
    ensures |bs| == 1 <==> c as int < 0x80
  {
    var n := c as int;
    if n < 0x80 then [n]
    else if n < 0x800 then [0xC0 + n / 64, 0x80 + n % 64]
    else if n < 0x10000 then [0xE0 + n / 4096, 0x80 + (n / 64) % 64, 0x80 + n % 64]
    else [0xF0 + n / 262144, 0x80 + (n / 4096) % 64, 0x80 + (n / 64) % 64, 0x80 + n % 64]
  }

  /** The UTF-8 bytes of a string. */
  function Utf8Encode(s: string): seq<Byte>
  {
    if s == [] then [] else Utf8(s[0]) + Utf8Encode(s[1..])
  }

  function HexDigit(d: int): char
    requires 0 <= d < 16
  {
    "0123456789ABCDEF"[d]
  }

  function PercentByte(b: Byte): string
  {
    ['%', HexDigit(b / 16), HexDigit(b % 16)]
  }

  function PercentBytes(bs: seq<Byte>): (r: string)
    ensures |r| == 3 * |bs|
  {
    if bs == [] then [] else PercentByte(bs[0]) + PercentBytes(bs[1..])
  }

  function EncodeChar(c: char): string
  {
    if IsUnreserved(c) then [c] else PercentBytes(Utf8(c))
  }

  /** `encodeURIComponent(s)`. */
  function Encode(s: string): string
  {
    if s == [] then [] else EncodeChar(s[0]) + Encode(s[1..])
  }

  predicate IsHex(c: char)
  {
    ('0' <= c <= '9') || ('A' <= c <= 'F') || ('a' <= c <= 'f')
  }

  function HexValue(c: char): (d: int)
    requires IsHex(c)
    ensures 0 <= d < 16
  {
    if '0' <= c <= '9' then c as int - '0' as int
    else if 'A' <= c <= 'F' then c as int - 'A' as int + 10
    else c as int - 'a' as int + 10
  }

  /** The byte written by the escape `%XX` at position `p`, if there is one. */
  function EscapedByte(s: string, p: nat): Option<Byte>
  {
    if p + 3 <= |s| && s[p] == '%' && IsHex(s[p + 1]) && IsHex(s[p + 2])
    then Some(16 * HexValue(s[p + 1]) + HexValue(s[p + 2]))
    else None
  }

  /** The payload of the `j`-th escape, when it writes a continuation byte
      `10xxxxxx`. */
  function Continuation(s: string, j: nat): Option<int>
  {
    match EscapedByte(s, 3 * j)
    case None => None
    case Some(b) => if 0x80 <= b < 0xC0 then Some(b - 0x80) else None
  }

  /** One step of `decodeURIComponent`: the character at the front of `s` and
      how many characters of `s` it used, or None where the built-in throws. */
  function DecodeStep(s: string): (r: Option<(char, nat)>)
    requires s != []
    ensures r.Some? ==> 1 <= r.value.1 <= |s|
  {
    if s[0] != '%' then Some((s[0], 1))
    else match EscapedByte(s, 0)
      case None => None
      case Some(b) =>
        if b < 0x80 then Some((b as char, 3))
        else if b < 0xC0 || 0xF8 <= b then None
        else if b < 0xE0 then
          if |s| < 6 then None
          else match Continuation(s, 1)
            case None => None
            case Some(c1) =>
              var cp := (b - 0xC0) * 64 + c1;
              if cp < 0x80 then None else Some((cp as char, 6))
        else if b < 0xF0 then
          if |s| < 9 then None
          else match (Continuation(s, 1), Continuation(s, 2))
            case (Some(c1), Some(c2)) =>
              var cp := (b - 0xE0) * 4096 + c1 * 64 + c2;
              if cp < 0x800 || (0xD800 <= cp <= 0xDFFF) then None else Some((cp as char, 9))
            case _ => None
        else
          if |s| < 12 then None
          else match (Continuation(s, 1), Continuation(s, 2), Continuation(s, 3))
            case (Some(c1), Some(c2), Some(c3)) =>
              var cp := (b - 0xF0) * 262144 + c1 * 4096 + c2 * 64 + c3;
              if cp < 0x10000 || 0x10FFFF < cp then None else Some((cp as char, 12))
            case _ => None
  }

  /** `decodeURIComponent(s)`, None where it throws a URIError. */
  function Decode(s: string): Option<string>
    decreases |s|
  {
    if s == [] then Some([])
    else match DecodeStep(s)
      case None => None
      case Some((c, k)) =>
        match Decode(s[k..])
        case None => None
        case Some(rest) => Some([c] + rest)
  }

  /** A string without `%` decodes to itself. */
  lemma {:induction false} DecodePlain(s: string)
    requires '%' !in s
    ensures Decode(s) == Some(s)
  {
    if s != [] {
      assert '%' !in s[1..];
      DecodePlain(s[1..]);
      assert DecodeStep(s) == Some((s[0], 1));
      DecodeFront(s, s[0], 1, s[1..]);
      assert s == [s[0]] + s[1..];
    }
  }

  // ---- the round trip ----

  /** Whether an escape stands at a position depends only on the three
      characters there. */
  lemma EscapedByteShift(u: string, s: string, p: nat)
    ensures EscapedByte(u + s, |u| + p) == EscapedByte(s, p)
  {
    if p + 3 <= |s| {
      assert (u + s)[|u| + p] == s[p];
      assert (u + s)[|u| + p + 1] == s[p + 1];
      assert (u + s)[|u| + p + 2] == s[p + 2];
    }
  }

  lemma PercentByteRead(b: Byte, t: string)
    ensures EscapedByte(PercentByte(b) + t, 0) == Some(b)
  {
    var s := PercentByte(b) + t;
    assert s[0] == '%' && s[1] == HexDigit(b / 16) && s[2] == HexDigit(b % 16);
    assert HexValue(HexDigit(b / 16)) == b / 16;
    assert HexValue(HexDigit(b % 16)) == b % 16;
  }

  /** The `j`-th escape of an encoded byte sequence is that byte's escape. */
  lemma {:induction false} PercentBytesAt(bs: seq<Byte>, j: nat, t: string)
    requires j < |bs|
    ensures EscapedByte(PercentBytes(bs) + t, 3 * j) == Some(bs[j])
  {
    var s' := PercentBytes(bs[1..]) + t;
    assert PercentBytes(bs) + t == PercentByte(bs[0]) + s';
    if j == 0 {
      PercentByteRead(bs[0], s');
    } else {
      PercentBytesAt(bs[1..], j - 1, t);
      EscapedByteShift(PercentByte(bs[0]), s', 3 * (j - 1));
    }
  }

  lemma Utf8Two(n: int)
    requires 0x80 <= n < 0x800
    ensures 0xC2 <= 0xC0 + n / 64 < 0xE0
    ensures (n / 64) * 64 + n % 64 == n
  {
  }

  lemma Utf8Three(n: int)
    requires 0x800 <= n < 0x10000
    ensures 0xE0 <= 0xE0 + n / 4096 < 0xF0
    ensures (n / 4096) * 4096 + ((n / 64) % 64) * 64 + n % 64 == n
  {
    var q := n / 64;
    assert n == 64 * q + n % 64;
    assert q / 64 == n / 4096;
    assert q == 64 * (q / 64) + q % 64;
  }

  lemma Utf8Four(n: int)
    requires 0x10000 <= n <= 0x10FFFF
    ensures 0xF0 <= 0xF0 + n / 262144 < 0xF8
    ensures (n / 262144) * 262144 + ((n / 4096) % 64) * 4096 + ((n / 64) % 64) * 64 + n % 64 == n
  {
    var q := n / 64;
    var p := n / 4096;
    assert n == 64 * q + n % 64;
    assert q / 64 == p;
    assert q == 64 * p + q % 64;
    assert p / 64 == n / 262144;
    assert p == 64 * (p / 64) + p % 64;
  }

  lemma DecodeStepOne(c: char, t: string)
    requires !IsUnreserved(c) && c as int < 0x80
    ensures DecodeStep(EncodeChar(c) + t) == Some((c, 3))
  {
    var s := EncodeChar(c) + t;
    PercentBytesAt(Utf8(c), 0, t);
    assert s[0] == '%';
    assert (c as int) as char == c;
  }

  /** The payload of an escaped continuation byte of an encoded sequence. */
  lemma ContinuationAt(bs: seq<Byte>, j: nat, t: string, d: int)
    requires j < |bs| && 0 <= d < 64 && bs[j] == 0x80 + d
    ensures Continuation(PercentBytes(bs) + t, j) == Some(d)
  {
    PercentBytesAt(bs, j, t);
  }

  /** An encoded sequence starts with `%`. */
  lemma PercentBytesStart(bs: seq<Byte>, t: string)
    requires bs != []
    ensures (PercentBytes(bs) + t)[0] == '%'
  {
    assert PercentBytes(bs) + t == PercentByte(bs[0]) + (PercentBytes(bs[1..]) + t);
  }

  // How DecodeStep reads a lead escape and its continuation escapes.

  lemma ReadTwo(s: string, q: int, c1: int, n: int)
    requires |s| >= 6 && s[0] == '%' && 0 <= q < 0x20 && EscapedByte(s, 0) == Some(0xC0 + q)
    requires Continuation(s, 1) == Some(c1)
    requires q * 64 + c1 == n && 0x80 <= n < 0x800
    ensures DecodeStep(s) == Some((n as char, 6))
  {
  }

  lemma ReadThree(s: string, q: int, c1: int, c2: int, n: int)
    requires |s| >= 9 && s[0] == '%' && 0 <= q < 0x10 && EscapedByte(s, 0) == Some(0xE0 + q)
    requires Continuation(s, 1) == Some(c1) && Continuation(s, 2) == Some(c2)
    requires q * 4096 + c1 * 64 + c2 == n && 0x800 <= n < 0x10000 && !(0xD800 <= n <= 0xDFFF)
    ensures DecodeStep(s) == Some((n as char, 9))
  {
  }

  lemma ReadFour(s: string, q: int, c1: int, c2: int, c3: int, n: int)
    requires |s| >= 12 && s[0] == '%' && 0 <= q < 0x08 && EscapedByte(s, 0) == Some(0xF0 + q)
    requires Continuation(s, 1) == Some(c1) && Continuation(s, 2) == Some(c2) && Continuation(s, 3) == Some(c3)
    requires q * 262144 + c1 * 4096 + c2 * 64 + c3 == n && 0x10000 <= n <= 0x10FFFF
    ensures DecodeStep(s) == Some((n as char, 12))
  {
  }

  // The escapes of a multi-byte form, over its lead payload `q` and its
  // continuation payloads `d1`, `d2`, `d3`, are read back as one character.

  lemma EscapesTwo(q: int, d1: int, t: string)
    requires 0 <= q < 0x20 && 0 <= d1 < 64 && 0x80 <= q * 64 + d1
    ensures DecodeStep(PercentBytes([0xC0 + q, 0x80 + d1]) + t) == Some(((q * 64 + d1) as char, 6))
  {
    var bs: seq<Byte> := [0xC0 + q, 0x80 + d1];
    var s := PercentBytes(bs) + t;
    assert |s| == 6 + |t|;
    assert s[0] == '%' by { PercentBytesStart(bs, t); }
    assert EscapedByte(s, 0) == Some(0xC0 + q) by { PercentBytesAt(bs, 0, t); }
    assert Continuation(s, 1) == Some(d1) by { ContinuationAt(bs, 1, t, d1); }
    ReadTwo(s, q, d1, q * 64 + d1);
  }

  lemma EscapesThree(q: int, d1: int, d2: int, t: string)
    requires 0 <= q < 0x10 && 0 <= d1 < 64 && 0 <= d2 < 64
    requires var n := q * 4096 + d1 * 64 + d2; 0x800 <= n && !(0xD800 <= n <= 0xDFFF)
    ensures DecodeStep(PercentBytes([0xE0 + q, 0x80 + d1, 0x80 + d2]) + t)
         == Some(((q * 4096 + d1 * 64 + d2) as char, 9))
  {
    var bs: seq<Byte> := [0xE0 + q, 0x80 + d1, 0x80 + d2];
    var s := PercentBytes(bs) + t;
    assert |s| == 9 + |t|;
    assert s[0] == '%' by { PercentBytesStart(bs, t); }
    assert EscapedByte(s, 0) == Some(0xE0 + q) by { PercentBytesAt(bs, 0, t); }
    assert Continuation(s, 1) == Some(d1) by { ContinuationAt(bs, 1, t, d1); }
    assert Continuation(s, 2) == Some(d2) by { ContinuationAt(bs, 2, t, d2); }
    ReadThree(s, q, d1, d2, q * 4096 + d1 * 64 + d2);
  }

  lemma EscapesFour(q: int, d1: int, d2: int, d3: int, t: string)
    requires 0 <= q < 0x08 && 0 <= d1 < 64 && 0 <= d2 < 64 && 0 <= d3 < 64
    requires 0x10000 <= q * 262144 + d1 * 4096 + d2 * 64 + d3 <= 0x10FFFF
    ensures DecodeStep(PercentBytes([0xF0 + q, 0x80 + d1, 0x80 + d2, 0x80 + d3]) + t)
         == Some(((q * 262144 + d1 * 4096 + d2 * 64 + d3) as char, 12))
  {
    var bs: seq<Byte> := [0xF0 + q, 0x80 + d1, 0x80 + d2, 0x80 + d3];
    var s := PercentBytes(bs) + t;
    assert |s| == 12 + |t|;
    assert s[0] == '%' by { PercentBytesStart(bs, t); }
    assert EscapedByte(s, 0) == Some(0xF0 + q) by { PercentBytesAt(bs, 0, t); }
    assert Continuation(s, 1) == Some(d1) by { ContinuationAt(bs, 1, t, d1); }
    assert Continuation(s, 2) == Some(d2) by { ContinuationAt(bs, 2, t, d2); }
    assert Continuation(s, 3) == Some(d3) by { ContinuationAt(bs, 3, t, d3); }
    ReadFour(s, q, d1, d2, d3, q * 262144 + d1 * 4096 + d2 * 64 + d3);
  }

  lemma DecodeStepTwo(c: char, t: string)
    requires 0x80 <= c as int < 0x800
    ensures DecodeStep(EncodeChar(c) + t) == Some((c, 6))
  {
    var n := c as int;
    var q, d1 := n / 64, n % 64;
    assert 0 <= q < 0x20 && q * 64 + d1 == n by { Utf8Two(n); }
    var bs := Utf8(c);
    assert bs == [0xC0 + q, 0x80 + d1];
    assert EncodeChar(c) == PercentBytes(bs);
    EscapesTwo(q, d1, t);
  }

  lemma DecodeStepThree(c: char, t: string)
    requires 0x800 <= c as int < 0x10000
    ensures DecodeStep(EncodeChar(c) + t) == Some((c, 9))
  {
    var n := c as int;
    var q, d1, d2 := n / 4096, (n / 64) % 64, n % 64;
    assert 0 <= q < 0x10 && q * 4096 + d1 * 64 + d2 == n by { Utf8Three(n); }
    var bs := Utf8(c);
    assert bs == [0xE0 + q, 0x80 + d1, 0x80 + d2];
    assert EncodeChar(c) == PercentBytes(bs);
    EscapesThree(q, d1, d2, t);
  }

  lemma DecodeStepFour(c: char, t: string)
    requires 0x10000 <= c as int
    ensures DecodeStep(EncodeChar(c) + t) == Some((c, 12))
  {
    var n := c as int;
    var q, d1, d2, d3 := n / 262144, (n / 4096) % 64, (n / 64) % 64, n % 64;
    assert 0 <= q < 0x08 && q * 262144 + d1 * 4096 + d2 * 64 + d3 == n by { Utf8Four(n); }
    var bs := Utf8(c);
    assert bs == [0xF0 + q, 0x80 + d1, 0x80 + d2, 0x80 + d3];
    assert EncodeChar(c) == PercentBytes(bs);
    EscapesFour(q, d1, d2, d3, t);
  }

  /** Decoding the first character of an encoded string gives that character
      back and uses exactly its encoding. */
  lemma DecodeStepEncodeChar(c: char, t: string)
    ensures DecodeStep(EncodeChar(c) + t) == Some((c, |EncodeChar(c)|))
  {
    if IsUnreserved(c) {
      assert (EncodeChar(c) + t)[0] == c;
    } else if c as int < 0x80 {
      DecodeStepOne(c, t);
    } else if c as int < 0x800 {
      DecodeStepTwo(c, t);
    } else if c as int < 0x10000 {
      DecodeStepThree(c, t);
    } else {
      DecodeStepFour(c, t);
    }
  }

  /** Decoding goes on after the first character. */
  lemma DecodeFront(s: string, c: char, k: nat, rest: string)
    requires s != [] && DecodeStep(s) == Some((c, k)) && Decode(s[k..]) == Some(rest)
    ensures Decode(s) == Some([c] + rest)
  {
  }

  /** `decodeURIComponent(encodeURIComponent(s)) == s`. */
  lemma {:induction false} DecodeEncode(s: string)
    ensures Decode(Encode(s)) == Some(s)
  {
    if s != [] {
      var e := EncodeChar(s[0]);
      var rest := Encode(s[1..]);
      assert Encode(s) == e + rest;
      DecodeStepEncodeChar(s[0], rest);
      assert (e + rest)[|e|..] == rest;
      DecodeEncode(s[1..]);
      DecodeFront(e + rest, s[0], |e|, s[1..]);
      assert s == [s[0]] + s[1..];
    }
  }

  // ---- what an encoded string is made of ----

  /** The characters an encoded string can hold: the unreserved ones (the hex
      digits among them) and `%`.  In particular no `&`, `=`, `;` or space. */
  predicate IsEncodedChar(c: char)
  {
    IsUnreserved(c) || c == '%'
  }

  /** Every character of `s` is one an encoded string can hold. */
  predicate AllEncoded(s: string)
  {
    forall i :: 0 <= i < |s| ==> IsEncodedChar(s[i])
  }

  lemma AllEncodedConcat(a: string, b: string)
    requires AllEncoded(a) && AllEncoded(b)
    ensures AllEncoded(a + b)
  {
    forall i | 0 <= i < |a + b| ensures IsEncodedChar((a + b)[i]) {
      if i >= |a| {
        assert (a + b)[i] == b[i - |a|];
      } else {
        assert (a + b)[i] == a[i];
      }
    }
  }

  lemma PercentByteChars(b: Byte)
    ensures AllEncoded(PercentByte(b))
  {
    var e := PercentByte(b);
    assert e[1] in "0123456789ABCDEF" && e[2] in "0123456789ABCDEF";
  }

  lemma {:induction false} PercentBytesChars(bs: seq<Byte>)
    ensures AllEncoded(PercentBytes(bs))
  {
    if bs != [] {
      PercentBytesChars(bs[1..]);
      PercentByteChars(bs[0]);
      AllEncodedConcat(PercentByte(bs[0]), PercentBytes(bs[1..]));
    }
  }

  lemma {:induction false} EncodeChars(s: string)
    ensures AllEncoded(Encode(s))
  {
    if s != [] {
      EncodeChars(s[1..]);
      if !IsUnreserved(s[0]) {
        PercentBytesChars(Utf8(s[0]));
      } else {
        assert EncodeChar(s[0])[0] == s[0];
      }
      AllEncodedConcat(EncodeChar(s[0]), Encode(s[1..]));
    }
  }

  /** An encoded component never holds the separators of form data or of
      media-type parameters. */
  lemma EncodeAvoidsSeparators(s: string)
    ensures '&' !in Encode(s) && '=' !in Encode(s) && ';' !in Encode(s)
  {
    EncodeChars(s);
  }

  // ---- text that needs no escaping ----

  /** Every character is one `encodeURIComponent` leaves alone. */
  predicate AllUnreserved(s: string)
  {
    forall i :: 0 <= i < |s| ==> IsUnreserved(s[i])
  }

  /** Text of unreserved characters is encoded as it is. */
  lemma {:induction false} EncodeUnreserved(s: string)
    requires AllUnreserved(s)
    ensures Encode(s) == s
  {
    if s != [] {
      EncodeUnreserved(s[1..]);
      assert s == [s[0]] + s[1..];
    }
  }

  /** Encoding works character by character. */
  lemma {:induction false} EncodeConcat(a: string, b: string)
    ensures Encode(a + b) == Encode(a) + Encode(b)
  {
    if a != [] {
      assert (a + b)[0] == a[0] && (a + b)[1..] == a[1..] + b;
      EncodeConcat(a[1..], b);
    } else {
      assert a + b == b;
    }
  }

  lemma EncodeAmpersand()
    ensures Encode("&") == "%26"
  {
    assert Utf8('&') == [38];
    assert PercentBytes([38]) == PercentByte(38) + PercentBytes([]);
  }

  /** Text between two "&"s: both are escaped, the text is kept. */
  lemma EncodeBetweenAmpersands(a: string)
    requires AllUnreserved(a)
    ensures Encode("&" + a + "&") == "%26" + a + "%26"
  {
    EncodeUnreserved(a);
    EncodeConcat("&" + a, "&");
    EncodeConcat("&", a);
    EncodeAmpersand();
  }

  /** An "&" is written as its escape, and the text around it as it is. */
  lemma EncodeWithAmpersand(a: string, b: string)
    requires AllUnreserved(a) && AllUnreserved(b)
    ensures Encode(a + "&" + b) == a + "%26" + b
  {
    EncodeUnreserved(a);
    EncodeUnreserved(b);
    EncodeConcat(a + "&", b);
    EncodeConcat(a, "&");
    EncodeAmpersand();
  }
}
