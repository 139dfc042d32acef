/**
 * PHP's `base64_encode`: the base64 encoding of section 4 of RFC 4648, with
 * the standard alphabet and `=` padding, and a decoder for it.
 */
module Base64 {
  import opened Wrappers
  import opened Bytes

  /** The alphabet of table 1 of RFC 4648: A-Z, a-z, 0-9, '+', '/'. */
  function Symbol(i: int): (c: char)
    requires 0 <= i < 64
  {
    if i < 26 then ('A' as int + i) as char
    else if i < 52 then ('a' as int + (i - 26)) as char
    else if i < 62 then ('0' as int + (i - 52)) as char
    else if i == 62 then '+'
    else '/'
  }

  /** The 6-bit value a symbol stands for; None for a character outside the alphabet. */
  function SymbolValue(c: char): (r: Option<int>)
    ensures r.Some? ==> 0 <= r.value < 64 && Symbol(r.value) == c
  {
    if 'A' <= c <= 'Z' then Some(c as int - 'A' as int)
    else if 'a' <= c <= 'z' then Some(c as int - 'a' as int + 26)
    else if '0' <= c <= '9' then Some(c as int - '0' as int + 52)
    else if c == '+' then Some(62)
    else if c == '/' then Some(63)
    else None
  }

  predicate IsBase64Char(c: char) {
    SymbolValue(c).Some? || c == '='
  }

  /** Three octets as four symbols: 24 bits cut into four 6-bit groups, high bits first. */
  function EncodeGroup(a: byte, b: byte, c: byte): string {
    [Symbol(a as int / 4), Symbol(a as int % 4 * 16 + b as int / 16),
     Symbol(b as int % 16 * 4 + c as int / 64), Symbol(c as int % 64)]
  }

  /**
   * The encoding: a full group per three octets; a final one or two octets
   * are zero-filled and padded with "==" or "=".
   */
  function Encode(bs: seq<byte>): (r: string)
    ensures |r| == (|bs| + 2) / 3 * 4
    ensures forall i :: 0 <= i < |r| ==> IsBase64Char(r[i])
  {
    if |bs| == 0 then
      ""
    else if |bs| == 1 then
      [Symbol(bs[0] as int / 4), Symbol(bs[0] as int % 4 * 16), '=', '=']
    else if |bs| == 2 then
      [Symbol(bs[0] as int / 4), Symbol(bs[0] as int % 4 * 16 + bs[1] as int / 16),
       Symbol(bs[1] as int % 16 * 4), '=']
    else
      EncodeGroup(bs[0], bs[1], bs[2]) + Encode(bs[3..])
  }

  /** Four symbols without padding as three octets. */
  function DecodeGroup(s: string): Option<seq<byte>>
    requires |s| == 4
  {
    match (SymbolValue(s[0]), SymbolValue(s[1]), SymbolValue(s[2]), SymbolValue(s[3]))
    case (Some(i0), Some(i1), Some(i2), Some(i3)) =>
      Some([(i0 * 4 + i1 / 16) as byte, (i1 % 16 * 16 + i2 / 4) as byte, (i2 % 4 * 64 + i3) as byte])
    case _ => None
  }

  /**
   * The last four symbols, which may end in "==" (one octet) or "=" (two
   * octets). The bits the padding leaves over must be zero (section 3.5 of
   * RFC 4648), so that only the encoder's own output is accepted.
   */
  function DecodeLastGroup(s: string): Option<seq<byte>>
    requires |s| == 4
  {
    if s[2] == '=' && s[3] == '=' then
      match (SymbolValue(s[0]), SymbolValue(s[1]))
      case (Some(i0), Some(i1)) =>
        if i1 % 16 == 0 then Some([(i0 * 4 + i1 / 16) as byte]) else None
      case _ => None
    else if s[3] == '=' then
      match (SymbolValue(s[0]), SymbolValue(s[1]), SymbolValue(s[2]))
      case (Some(i0), Some(i1), Some(i2)) =>
        if i2 % 4 == 0 then Some([(i0 * 4 + i1 / 16) as byte, (i1 % 16 * 16 + i2 / 4) as byte]) else None
      case _ => None
    else
      DecodeGroup(s)
  }

  /** The octets `s` encodes; None when its length is not a multiple of four or a symbol is misplaced. */
  function Decode(s: string): Option<seq<byte>>
    decreases |s|
  {
    if |s| == 0 then Some([])
    else if |s| < 4 then None
    else if |s| == 4 then DecodeLastGroup(s)
    else
      match (DecodeGroup(s[..4]), Decode(s[4..]))
      case (Some(g), Some(rest)) => Some(g + rest)
      case _ => None
  }

  lemma SymbolRoundTrip(i: int)
    requires 0 <= i < 64
    ensures SymbolValue(Symbol(i)) == Some(i)
  {
  }

  lemma DecodeEncodedGroup(a: byte, b: byte, c: byte)
    ensures DecodeGroup(EncodeGroup(a, b, c)) == Some([a, b, c])
  {
    var i0, i1, i2, i3 := a as int / 4, a as int % 4 * 16 + b as int / 16, b as int % 16 * 4 + c as int / 64, c as int % 64;
    SymbolRoundTrip(i0); SymbolRoundTrip(i1); SymbolRoundTrip(i2); SymbolRoundTrip(i3);
    assert i1 / 16 == a as int % 4 && i1 % 16 == b as int / 16;
    assert i2 / 4 == b as int % 16 && i2 % 4 == c as int / 64;
  }

  lemma DecodeEncodedOne(a: byte)
    ensures DecodeLastGroup(Encode([a])) == Some([a])
  {
    var i0, i1 := a as int / 4, a as int % 4 * 16;
    SymbolRoundTrip(i0);
    SymbolRoundTrip(i1);
    assert Encode([a]) == [Symbol(i0), Symbol(i1), '=', '='];
  }

  lemma DecodeEncodedTwo(a: byte, b: byte)
    ensures DecodeLastGroup(Encode([a, b])) == Some([a, b])
  {
    var i0, i1, i2 := a as int / 4, a as int % 4 * 16 + b as int / 16, b as int % 16 * 4;
    SymbolRoundTrip(i0);
    SymbolRoundTrip(i1);
    SymbolRoundTrip(i2);
    assert i1 / 16 == a as int % 4 && i1 % 16 == b as int / 16;
    assert Encode([a, b]) == [Symbol(i0), Symbol(i1), Symbol(i2), '='];
  }

  /** Decoding inverts `base64_encode`: every octet string comes back unchanged. */
  lemma {:induction false} DecodeEncode(bs: seq<byte>)
    ensures Decode(Encode(bs)) == Some(bs)
  {
    if |bs| == 0 {
    } else if |bs| == 1 {
      DecodeEncodedOne(bs[0]);
      assert bs == [bs[0]];
    } else if |bs| == 2 {
      DecodeEncodedTwo(bs[0], bs[1]);
      assert bs == [bs[0], bs[1]];
    } else {
      var g := EncodeGroup(bs[0], bs[1], bs[2]);
      DecodeEncodedGroup(bs[0], bs[1], bs[2]);
      assert [bs[0], bs[1], bs[2]] + bs[3..] == bs;
      if |bs| == 3 {
        assert bs[3..] == [] && bs == [bs[0], bs[1], bs[2]];
        assert Encode(bs) == g + "" == g;
        assert g[2] != '=' && g[3] != '=';
        assert DecodeLastGroup(g) == DecodeGroup(g);
      } else {
        var e := g + Encode(bs[3..]);
        assert e[..4] == g && e[4..] == Encode(bs[3..]);
        DecodeEncode(bs[3..]);
      }
    }
  }

  /** Regrouping four 6-bit values into three octets and back gives the same values. */
  lemma RegroupThree(i0: int, i1: int, i2: int, i3: int)
    requires 0 <= i0 < 64 && 0 <= i1 < 64 && 0 <= i2 < 64 && 0 <= i3 < 64
    ensures var a, b, c := i0 * 4 + i1 / 16, i1 % 16 * 16 + i2 / 4, i2 % 4 * 64 + i3;
      0 <= a < 256 && 0 <= b < 256 && 0 <= c < 256 &&
      a / 4 == i0 && a % 4 * 16 + b / 16 == i1 && b % 16 * 4 + c / 64 == i2 && c % 64 == i3
  {
    var a, b, c := i0 * 4 + i1 / 16, i1 % 16 * 16 + i2 / 4, i2 % 4 * 64 + i3;
    assert a / 4 == i0 && a % 4 == i1 / 16;
    assert b / 16 == i1 % 16 && b % 16 == i2 / 4;
    assert c / 64 == i2 % 4 && c % 64 == i3;
  }

  lemma EncodeDecodedGroup(s: string)
    requires |s| == 4 && DecodeGroup(s).Some?
    ensures |DecodeGroup(s).value| == 3
    ensures EncodeGroup(DecodeGroup(s).value[0], DecodeGroup(s).value[1], DecodeGroup(s).value[2]) == s
  {
    var i0, i1, i2, i3 := SymbolValue(s[0]).value, SymbolValue(s[1]).value, SymbolValue(s[2]).value, SymbolValue(s[3]).value;
    RegroupThree(i0, i1, i2, i3);
    assert s == [Symbol(i0), Symbol(i1), Symbol(i2), Symbol(i3)];
  }

  lemma EncodeDecodedOne(s: string)
    requires |s| == 4 && s[2] == '=' && s[3] == '=' && DecodeLastGroup(s).Some?
    ensures |DecodeLastGroup(s).value| == 1
    ensures Encode(DecodeLastGroup(s).value) == s
  {
    var i0, i1 := SymbolValue(s[0]).value, SymbolValue(s[1]).value;
    RegroupThree(i0, i1, 0, 0);
    assert s == [Symbol(i0), Symbol(i1), '=', '='];
  }

  lemma EncodeDecodedTwo(s: string)
    requires |s| == 4 && s[2] != '=' && s[3] == '=' && DecodeLastGroup(s).Some?
    ensures |DecodeLastGroup(s).value| == 2
    ensures Encode(DecodeLastGroup(s).value) == s
  {
    var i0, i1, i2 := SymbolValue(s[0]).value, SymbolValue(s[1]).value, SymbolValue(s[2]).value;
    RegroupThree(i0, i1, i2, 0);
    assert s == [Symbol(i0), Symbol(i1), Symbol(i2), '='];
  }

  lemma EncodeDecodedLastGroup(s: string)
    requires |s| == 4 && DecodeLastGroup(s).Some?
    ensures 1 <= |DecodeLastGroup(s).value| <= 3
    ensures Encode(DecodeLastGroup(s).value) == s
  {
    if s[2] == '=' && s[3] == '=' {
      EncodeDecodedOne(s);
    } else if s[3] == '=' {
      EncodeDecodedTwo(s);
    } else {
      var bs := DecodeLastGroup(s).value;
      EncodeDecodedGroup(s);
      assert bs == [bs[0], bs[1], bs[2]];
      assert Encode(bs) == EncodeGroup(bs[0], bs[1], bs[2]) + Encode([]);
    }
  }

  /**
   * The decoder accepts only what `base64_encode` produces: a text that
   * decodes to some octets is their encoding, so the encoding of a given
   * octet string is the one text decoding to it.
   */
  lemma {:induction false} EncodeDecode(s: string)
    requires Decode(s).Some?
    ensures Encode(Decode(s).value) == s
    decreases |s|
  {
    if |s| == 4 {
      EncodeDecodedLastGroup(s);
    } else if |s| > 4 {
      var g := DecodeGroup(s[..4]).value;
      var rest := Decode(s[4..]).value;
      EncodeDecodedGroup(s[..4]);
      EncodeDecode(s[4..]);
      assert |Encode(rest)| > 0;
      assert |rest| > 0;
      var bs := g + rest;
      assert bs[..3] == g && bs[3..] == rest;
      assert Encode(bs) == EncodeGroup(bs[0], bs[1], bs[2]) + Encode(bs[3..]);
      assert s == s[..4] + s[4..];
    }
  }
}
