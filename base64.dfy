/** The base 64 encoding of section 4 of RFC 4648, with `=` padding: each
    group of three bytes becomes four characters of the alphabet
    `A–Z a–z 0–9 + /`; a final group of one or two bytes is padded to four
    characters.  The client uses it to build the credentials of the Basic
    authentication scheme. */
module Base64 {
  import opened Wrappers
  import opened Uri

  /** The character for a six-bit value: `A`–`Z`, `a`–`z`, `0`–`9`, `+`, `/`. */
  function Char(v: int): char
    requires 0 <= v < 64
  {
    if v < 26 then ('A' as int + v) as char
    else if v < 52 then ('a' as int + v - 26) as char
    else if v < 62 then ('0' as int + v - 52) as char
    else if v == 62 then '+'
    else '/'
  }

  /** The value of an alphabet character, None for any other character. */
  function Value(c: char): (r: Option<int>)
    ensures r.Some? ==> 0 <= r.value < 64
  {
    if 'A' <= c <= 'Z' then Some(c as int - 'A' as int)
    else if 'a' <= c <= 'z' then Some(c as int - 'a' as int + 26)
    else if '0' <= c <= '9' then Some(c as int - '0' as int + 52)
    else if c == '+' then Some(62)
    else if c == '/' then Some(63)
    else None
  }

  lemma ValueOfChar(v: int)
    requires 0 <= v < 64
    ensures Value(Char(v)) == Some(v)
  {
  }

  // The six-bit pieces of three bytes, most significant first.

  function Sextet0(b0: Byte): (v: int)
    ensures 0 <= v < 64
  {
    b0 / 4
  }

  function Sextet1(b0: Byte, b1: Byte): (v: int)
    ensures 0 <= v < 64
  {
    (b0 % 4) * 16 + b1 / 16
  }

  function Sextet2(b1: Byte, b2: Byte): (v: int)
    ensures 0 <= v < 64
  {
    (b1 % 16) * 4 + b2 / 64
  }

  function Sextet3(b2: Byte): (v: int)
    ensures 0 <= v < 64
  {
    b2 % 64
  }

  // The bytes four six-bit values make, most significant first.

  function Octet0(v0: int, v1: int): (b: Byte)
    requires 0 <= v0 < 64 && 0 <= v1 < 64
  {
    v0 * 4 + v1 / 16
  }

  function Octet1(v1: int, v2: int): (b: Byte)
    requires 0 <= v1 < 64 && 0 <= v2 < 64
  {
    (v1 % 16) * 16 + v2 / 4
  }

  function Octet2(v2: int, v3: int): (b: Byte)
    requires 0 <= v2 < 64 && 0 <= v3 < 64
  {
    (v2 % 4) * 64 + v3
  }

  function Encode(bs: seq<Byte>): (r: string)
    ensures |r| % 4 == 0 && (r == [] <==> bs == [])
    decreases |bs|
  {
    if |bs| == 0 then ""
    else if |bs| == 1 then [Char(Sextet0(bs[0])), Char(Sextet1(bs[0], 0)), '=', '=']
    else if |bs| == 2 then [Char(Sextet0(bs[0])), Char(Sextet1(bs[0], bs[1])), Char(Sextet2(bs[1], 0)), '=']
    else Group(bs[0], bs[1], bs[2]) + Encode(bs[3..])
  }

  /** Three bytes, 24 bits, as four six-bit characters. */
  function Group(b0: Byte, b1: Byte, b2: Byte): (r: string)
    ensures |r| == 4
  {
    [Char(Sextet0(b0)), Char(Sextet1(b0, b1)), Char(Sextet2(b1, b2)), Char(Sextet3(b2))]
  }

  /** Decoding: four characters at a time; `=` may only pad the last group,
      and any other character outside the alphabet is refused. */
  function Decode(s: string): Option<seq<Byte>>
    decreases |s|
  {
    if s == [] then Some([])
    else if |s| < 4 || Value(s[0]).None? || Value(s[1]).None? then None
    else
      var v0, v1 := Value(s[0]).value, Value(s[1]).value;
      if |s| == 4 && s[2] == '=' && s[3] == '=' then
        Some([Octet0(v0, v1)])
      else if Value(s[2]).None? then None
      else
        var v2 := Value(s[2]).value;
        if |s| == 4 && s[3] == '=' then
          Some([Octet0(v0, v1), Octet1(v1, v2)])
        else if Value(s[3]).None? || Decode(s[4..]).None? then None
        else
          var v3 := Value(s[3]).value;
          Some([Octet0(v0, v1), Octet1(v1, v2), Octet2(v2, v3)] + Decode(s[4..]).value)
  }

  /** Every encoding is a whole number of four-character groups, one group per
      three bytes started. */
  lemma {:induction false} EncodeLength(bs: seq<Byte>)
    ensures |Encode(bs)| == 4 * ((|bs| + 2) / 3)
    decreases |bs|
  {
    if |bs| >= 3 {
      EncodeLength(bs[3..]);
      assert (|bs| + 2) / 3 == (|bs[3..]| + 2) / 3 + 1;
    }
  }

  /** The six-bit pieces give the bytes back. */
  lemma OctetsOfSextets(b0: Byte, b1: Byte, b2: Byte)
    ensures Octet0(Sextet0(b0), Sextet1(b0, b1)) == b0
    ensures Octet1(Sextet1(b0, b1), Sextet2(b1, b2)) == b1
    ensures Octet2(Sextet2(b1, b2), Sextet3(b2)) == b2
  {
  }

  /** How a group of four alphabet characters at the front is read. */
  lemma DecodeQuad(s: string)
    requires |s| >= 4
    requires Value(s[0]).Some? && Value(s[1]).Some? && Value(s[2]).Some? && Value(s[3]).Some?
    requires Decode(s[4..]).Some?
    ensures var v0, v1, v2, v3 := Value(s[0]).value, Value(s[1]).value, Value(s[2]).value, Value(s[3]).value;
      Decode(s) == Some([Octet0(v0, v1), Octet1(v1, v2), Octet2(v2, v3)] + Decode(s[4..]).value)
  {
    assert s[2] != '=' && s[3] != '=';
  }

  /** How a final group holding one byte is read. */
  lemma DecodeSingle(s: string)
    requires |s| == 4 && s[2] == '=' && s[3] == '='
    requires Value(s[0]).Some? && Value(s[1]).Some?
    ensures Decode(s) == Some([Octet0(Value(s[0]).value, Value(s[1]).value)])
  {
  }

  /** How a final group holding two bytes is read. */
  lemma DecodePair(s: string)
    requires |s| == 4 && s[3] == '='
    requires Value(s[0]).Some? && Value(s[1]).Some? && Value(s[2]).Some?
    ensures var v0, v1, v2 := Value(s[0]).value, Value(s[1]).value, Value(s[2]).value;
      Decode(s) == Some([Octet0(v0, v1), Octet1(v1, v2)])
  {
    assert s[2] != '=';
  }

  lemma DecodeOne(bs: seq<Byte>)
    requires |bs| == 1
    ensures Decode(Encode(bs)) == Some(bs)
  {
    var v0, v1 := Sextet0(bs[0]), Sextet1(bs[0], 0);
    var s := Encode(bs);
    assert s == [Char(v0), Char(v1), '=', '='];
    assert Decode(s) == Some([Octet0(v0, v1)]) by {
      ValueOfChar(v0);
      ValueOfChar(v1);
      DecodeSingle(s);
    }
    assert Octet0(v0, v1) == bs[0] by {
      OctetsOfSextets(bs[0], 0, 0);
    }
    assert [Octet0(v0, v1)] == bs;
  }

  lemma DecodeTwo(bs: seq<Byte>)
    requires |bs| == 2
    ensures Decode(Encode(bs)) == Some(bs)
  {
    var v0, v1, v2 := Sextet0(bs[0]), Sextet1(bs[0], bs[1]), Sextet2(bs[1], 0);
    var s := Encode(bs);
    assert s == [Char(v0), Char(v1), Char(v2), '='];
    assert Decode(s) == Some([Octet0(v0, v1), Octet1(v1, v2)]) by {
      ValueOfChar(v0);
      ValueOfChar(v1);
      ValueOfChar(v2);
      DecodePair(s);
    }
    OctetsOfSextets(bs[0], bs[1], 0);
    assert bs == [bs[0], bs[1]];
  }

  /** A full group decodes to its three bytes, followed by what the rest
      decodes to. */
  lemma DecodeGroup(b0: Byte, b1: Byte, b2: Byte, rest: string)
    requires Decode(rest).Some?
    ensures Decode(Group(b0, b1, b2) + rest) == Some([b0, b1, b2] + Decode(rest).value)
  {
    var v0, v1, v2, v3 := Sextet0(b0), Sextet1(b0, b1), Sextet2(b1, b2), Sextet3(b2);
    ValueOfChar(v0);
    ValueOfChar(v1);
    ValueOfChar(v2);
    ValueOfChar(v3);
    var s := Group(b0, b1, b2) + rest;
    assert s[4..] == rest;
    assert s[..4] == [Char(v0), Char(v1), Char(v2), Char(v3)];
    DecodeQuad(s);
    OctetsOfSextets(b0, b1, b2);
  }

  lemma EncodeGroupStep(bs: seq<Byte>)
    requires |bs| >= 3
    ensures Encode(bs) == Group(bs[0], bs[1], bs[2]) + Encode(bs[3..])
  {
  }

  /** Decoding undoes encoding. */
  lemma {:induction false} DecodeEncode(bs: seq<Byte>)
    ensures Decode(Encode(bs)) == Some(bs)
    decreases |bs|
  {
    if |bs| == 1 {
      DecodeOne(bs);
    } else if |bs| == 2 {
      DecodeTwo(bs);
    } else if |bs| >= 3 {
      var rest := bs[3..];
      DecodeEncode(rest);
      EncodeGroupStep(bs);
      DecodeGroup(bs[0], bs[1], bs[2], Encode(rest));
      assert bs == [bs[0], bs[1], bs[2]] + rest;
    }
  }
}
