/** The transport encoding used for signatures exchanged with the Web Login
    Service and for the session-cookie MAC: standard base64 (RFC 4648,
    section 4, with '=' padding) followed by the substitutions '+' -> '-',
    '/' -> '.', '=' -> '_' (`wls_encode`), and the reverse (`wls_decode`). */
module Transport {
  import opened Text

  /** The RFC 4648 base64 alphabet, value v in 0..63 to its character. */
  function Base64Char(v: int): (ch: char)
    requires 0 <= v < 64
  {
    if v < 26 then ('A' as int + v) as char
    else if v < 52 then ('a' as int + v - 26) as char
    else if v < 62 then ('0' as int + v - 52) as char
    else if v == 62 then '+'
    else '/'
  }

  /** The value of a base64 alphabet character, or None for any other character. */
  function Base64Value(ch: char): (r: Option<int>)
    ensures r.Some? ==> 0 <= r.value < 64 && Base64Char(r.value) == ch
  {
    if 'A' <= ch <= 'Z' then Some(ch as int - 'A' as int)
    else if 'a' <= ch <= 'z' then Some(ch as int - 'a' as int + 26)
    else if '0' <= ch <= '9' then Some(ch as int - '0' as int + 52)
    else if ch == '+' then Some(62)
    else if ch == '/' then Some(63)
    else None
  }

  lemma Base64ValueOfChar(v: int)
    requires 0 <= v < 64
    ensures Base64Value(Base64Char(v)) == Some(v)
  {
  }

  /** `Convert.ToBase64String`: every three bytes become four characters; a
      final group of one or two bytes is padded with '='. */
  function Base64Encode(b: seq<byte>): (s: string)
    decreases |b|
  {
    if |b| == 0 then ""
    else if |b| == 1 then
      [Base64Char(b[0] / 4), Base64Char((b[0] % 4) * 16), '=', '=']
    else if |b| == 2 then
      [Base64Char(b[0] / 4), Base64Char((b[0] % 4) * 16 + b[1] / 16), Base64Char((b[1] % 16) * 4), '=']
    else
      [Base64Char(b[0] / 4), Base64Char((b[0] % 4) * 16 + b[1] / 16),
       Base64Char((b[1] % 16) * 4 + b[2] / 64), Base64Char(b[2] % 64)]
      + Base64Encode(b[3..])
  }

  /** Four alphabet characters without padding, as three bytes. */
  function DecodeQuad(q: string): (r: Option<seq<byte>>)
    requires |q| == 4
  {
    match (Base64Value(q[0]), Base64Value(q[1]), Base64Value(q[2]), Base64Value(q[3]))
    case (Some(c0), Some(c1), Some(c2), Some(c3)) =>
      Some([c0 * 4 + c1 / 16, (c1 % 16) * 16 + c2 / 4, (c2 % 4) * 64 + c3])
    case _ => None
  }

  /** The last group: "xx==" gives one byte, "xxx=" two, "xxxx" three. */
  function DecodeLastQuad(q: string): (r: Option<seq<byte>>)
    requires |q| == 4
  {
    if q[2] == '=' && q[3] == '=' then
      match (Base64Value(q[0]), Base64Value(q[1]))
      case (Some(c0), Some(c1)) => Some([c0 * 4 + c1 / 16])
      case _ => None
    else if q[3] == '=' then
      match (Base64Value(q[0]), Base64Value(q[1]), Base64Value(q[2]))
      case (Some(c0), Some(c1), Some(c2)) => Some([c0 * 4 + c1 / 16, (c1 % 16) * 16 + c2 / 4])
      case _ => None
    else DecodeQuad(q)
  }

  /** `Convert.FromBase64String`; None stands for the FormatException thrown
      for a length that is not a multiple of four, a character outside the
      alphabet, or padding anywhere but at the end. */
  function Base64Decode(s: string): (r: Option<seq<byte>>)
    decreases |s|
  {
    if |s| == 0 then Some([])
    else if |s| % 4 != 0 then None
    else if |s| == 4 then DecodeLastQuad(s)
    else
      match (DecodeQuad(s[..4]), Base64Decode(s[4..]))
      case (Some(head), Some(tail)) => Some(head + tail)
      case _ => None
  }

  /** `wls_encode`: base64, then '+' -> '-', '/' -> '.', '=' -> '_', in that order. */
  function WlsEncode(b: seq<byte>): (s: string)
  {
    ReplaceChar(ReplaceChar(ReplaceChar(Base64Encode(b), '+', '-'), '/', '.'), '=', '_')
  }

  /** `wls_decode`: '-' -> '+', '.' -> '/', '_' -> '=', then base64 decoding. */
  function WlsDecode(s: string): (r: Option<seq<byte>>)
  {
    Base64Decode(ReplaceChar(ReplaceChar(ReplaceChar(s, '-', '+'), '.', '/'), '_', '='))
  }

  /** The characters `wls_encode` can produce: letters, digits, '-', '.', '_'. */
  predicate IsTransportChar(ch: char)
  {
    'A' <= ch <= 'Z' || 'a' <= ch <= 'z' || '0' <= ch <= '9' || ch == '-' || ch == '.' || ch == '_'
  }

  predicate IsBase64Output(ch: char)
  {
    Base64Value(ch).Some? || ch == '='
  }

  /** Base64 output length and alphabet. */
  lemma {:induction false} Base64EncodeShape(b: seq<byte>)
    ensures |Base64Encode(b)| == 4 * ((|b| + 2) / 3)
    ensures forall i :: 0 <= i < |Base64Encode(b)| ==> IsBase64Output(Base64Encode(b)[i])
    decreases |b|
  {
    if |b| >= 3 {
      Base64EncodeShape(b[3..]);
      EncodeShapeStep(b);
    } else if |b| == 2 {
      Base64ValueOfChar(b[0] / 4);
      Base64ValueOfChar((b[0] % 4) * 16 + b[1] / 16);
      Base64ValueOfChar((b[1] % 16) * 4);
    } else if |b| == 1 {
      Base64ValueOfChar(b[0] / 4);
      Base64ValueOfChar((b[0] % 4) * 16);
    }
  }

  /** Every character of s is one base64 can produce. */
  predicate AllBase64Output(s: string)
  {
    forall i :: 0 <= i < |s| ==> IsBase64Output(s[i])
  }

  /** The step of Base64EncodeShape past a full group of three bytes. */
  lemma EncodeShapeStep(b: seq<byte>)
    requires |b| >= 3
    requires |Base64Encode(b[3..])| == 4 * ((|b| - 3 + 2) / 3) && AllBase64Output(Base64Encode(b[3..]))
    ensures |Base64Encode(b)| == 4 * ((|b| + 2) / 3) && AllBase64Output(Base64Encode(b))
  {
    var q, t := Quad(b[0], b[1], b[2]), Base64Encode(b[3..]);
    EncodeCons(b);
    QuadOutput(b[0], b[1], b[2]);
    AppendOutput(q, t);
    GroupLength(|b|);
  }

  lemma GroupLength(n: int)
    requires n >= 3
    ensures 4 + 4 * ((n - 3 + 2) / 3) == 4 * ((n + 2) / 3)
  {
    assert (n + 2) / 3 == (n - 3 + 2) / 3 + 1;
  }

  /** The four characters of a full group of three bytes. */
  function Quad(b0: byte, b1: byte, b2: byte): (q: string)
    ensures |q| == 4
  {
    [Base64Char(b0 / 4), Base64Char((b0 % 4) * 16 + b1 / 16),
     Base64Char((b1 % 16) * 4 + b2 / 64), Base64Char(b2 % 64)]
  }

  lemma QuadOutput(b0: byte, b1: byte, b2: byte)
    ensures AllBase64Output(Quad(b0, b1, b2))
  {
    Base64ValueOfChar(b0 / 4);
    Base64ValueOfChar((b0 % 4) * 16 + b1 / 16);
    Base64ValueOfChar((b1 % 16) * 4 + b2 / 64);
    Base64ValueOfChar(b2 % 64);
  }

  lemma AppendOutput(q: string, t: string)
    requires AllBase64Output(q) && AllBase64Output(t)
    ensures AllBase64Output(q + t)
  {
    forall i | 0 <= i < |q + t| ensures IsBase64Output((q + t)[i]) {
      if i >= |q| { assert (q + t)[i] == t[i - |q|]; }
    }
  }

  /** Three bytes survive the trip through four base64 characters. */
  lemma QuadRoundTrip(b0: byte, b1: byte, b2: byte)
    ensures var c0, c1, c2, c3 := b0 / 4, (b0 % 4) * 16 + b1 / 16, (b1 % 16) * 4 + b2 / 64, b2 % 64;
      c0 * 4 + c1 / 16 == b0 && (c1 % 16) * 16 + c2 / 4 == b1 && (c2 % 4) * 64 + c3 == b2
  {
  }

  /** A final group of one byte decodes back. */
  lemma RoundTripOne(b: seq<byte>)
    requires |b| == 1
    ensures Base64Decode(Base64Encode(b)) == Some(b)
  {
    var c0, c1 := b[0] / 4, (b[0] % 4) * 16;
    var s := [Base64Char(c0), Base64Char(c1), '=', '='];
    assert Base64Encode(b) == s;
    Base64ValueOfChar(c0);
    Base64ValueOfChar(c1);
    QuadRoundTrip(b[0], 0, 0);
    assert DecodeLastQuad(s) == Some([c0 * 4 + c1 / 16]);
    assert b == [b[0]];
  }

  /** A final group of two bytes decodes back. */
  lemma RoundTripTwo(b: seq<byte>)
    requires |b| == 2
    ensures Base64Decode(Base64Encode(b)) == Some(b)
  {
    EncodeTwo(b);
    DecodeOneGroup(Base64Encode(b));
    PairDecodes(b[0], b[1]);
    assert [b[0], b[1]] == b;
  }

  /** The three characters encoding two bytes, with their '=', decode back. */
  lemma PairDecodes(b0: byte, b1: byte)
    ensures DecodeLastQuad([Base64Char(b0 / 4), Base64Char((b0 % 4) * 16 + b1 / 16), Base64Char((b1 % 16) * 4), '='])
      == Some([b0, b1])
  {
    DecodeThreeChars(b0 / 4, (b0 % 4) * 16 + b1 / 16, (b1 % 16) * 4);
    PairRoundTrip(b0, b1);
  }

  /** Two bytes survive the trip through three base64 characters. */
  lemma PairRoundTrip(b0: byte, b1: byte)
    ensures var c0, c1, c2 := b0 / 4, (b0 % 4) * 16 + b1 / 16, (b1 % 16) * 4;
      c0 * 4 + c1 / 16 == b0 && (c1 % 16) * 16 + c2 / 4 == b1
  {
    var c1 := (b0 % 4) * 16 + b1 / 16;
    assert c1 / 16 == b0 % 4 && c1 % 16 == b1 / 16 by {
      assert 0 <= b1 / 16 < 16;
    }
    assert ((b1 % 16) * 4) / 4 == b1 % 16;
  }

  /** Two bytes are encoded as three characters and one '='. */
  lemma EncodeTwo(b: seq<byte>)
    requires |b| == 2
    ensures Base64Encode(b)
      == [Base64Char(b[0] / 4), Base64Char((b[0] % 4) * 16 + b[1] / 16), Base64Char((b[1] % 16) * 4), '=']
  {
  }

  /** A single group of four characters is decoded as the last group. */
  lemma DecodeOneGroup(q: string)
    requires |q| == 4
    ensures Base64Decode(q) == DecodeLastQuad(q)
  {
  }

  /** Three alphabet characters and one '=' decode to two bytes. */
  lemma DecodeThreeChars(c0: int, c1: int, c2: int)
    requires 0 <= c0 < 64 && 0 <= c1 < 64 && 0 <= c2 < 64
    ensures DecodeLastQuad([Base64Char(c0), Base64Char(c1), Base64Char(c2), '='])
      == Some([c0 * 4 + c1 / 16, (c1 % 16) * 16 + c2 / 4])
  {
    var s := [Base64Char(c0), Base64Char(c1), Base64Char(c2), '='];
    Base64ValueOfChar(c0);
    Base64ValueOfChar(c1);
    Base64ValueOfChar(c2);
    assert s[2] != '=';
  }

  /** The first four characters of the encoding of three or more bytes decode
      to the first three bytes, as a middle group and as a last group. */
  lemma FirstQuad(b: seq<byte>)
    requires |b| >= 3
    ensures |Base64Encode(b)| >= 4
    ensures DecodeQuad(Base64Encode(b)[..4]) == Some(b[..3])
    ensures DecodeLastQuad(Base64Encode(b)[..4]) == Some(b[..3])
  {
    EncodeCons(b);
    QuadDecodes(b[0], b[1], b[2]);
    assert b[..3] == [b[0], b[1], b[2]];
  }

  lemma QuadDecodes(b0: byte, b1: byte, b2: byte)
    ensures DecodeQuad(Quad(b0, b1, b2)) == Some([b0, b1, b2])
    ensures DecodeLastQuad(Quad(b0, b1, b2)) == Some([b0, b1, b2])
  {
    Base64ValueOfChar(b0 / 4);
    Base64ValueOfChar((b0 % 4) * 16 + b1 / 16);
    Base64ValueOfChar((b1 % 16) * 4 + b2 / 64);
    Base64ValueOfChar(b2 % 64);
    QuadRoundTrip(b0, b1, b2);
    assert Quad(b0, b1, b2)[3] != '=';
  }

  /** A full group is encoded by itself, ahead of the rest. */
  lemma EncodeCons(b: seq<byte>)
    requires |b| >= 3
    ensures Base64Encode(b) == Quad(b[0], b[1], b[2]) + Base64Encode(b[3..])
    ensures Base64Encode(b)[..4] == Quad(b[0], b[1], b[2])
  {
  }

  lemma DecodeCons(q: string, t: string)
    requires |q| == 4 && |t| > 0 && |t| % 4 == 0
    ensures Base64Decode(q + t) ==
      match (DecodeQuad(q), Base64Decode(t))
      case (Some(head), Some(tail)) => Some(head + tail)
      case _ => None
  {
    var s := q + t;
    assert s[..4] == q;
    assert s[4..] == t;
    assert |s| % 4 == 0 by {
      assert |s| == |t| + 4;
      assert |t| == (|t| / 4) * 4;
    }
    assert |s| != 4 && |s| != 0;
  }

  /** Base64 decoding undoes base64 encoding. */
  lemma {:induction false} Base64RoundTrip(b: seq<byte>)
    ensures Base64Decode(Base64Encode(b)) == Some(b)
    decreases |b|
  {
    if |b| == 1 {
      RoundTripOne(b);
    } else if |b| == 2 {
      RoundTripTwo(b);
    } else if |b| == 3 {
      FirstQuad(b);
      EncodeCons(b);
      assert Base64Encode(b[3..]) == [];
      assert Base64Encode(b) == Base64Encode(b)[..4];
      assert b == b[..3];
    } else if |b| > 3 {
      FirstQuad(b);
      EncodeCons(b);
      Base64EncodeShape(b[3..]);
      Base64RoundTrip(b[3..]);
      DecodeCons(Base64Encode(b)[..4], Base64Encode(b[3..]));
      assert b[..3] + b[3..] == b;
    }
  }

  /** `wls_encode` output uses only letters, digits, '-', '.' and '_': in
      particular never '+', '/', '=' (nor the '!' that separates fields). */
  lemma WlsEncodeAlphabet(b: seq<byte>)
    ensures forall i :: 0 <= i < |WlsEncode(b)| ==> IsTransportChar(WlsEncode(b)[i])
    ensures '+' !in WlsEncode(b) && '/' !in WlsEncode(b) && '=' !in WlsEncode(b) && '!' !in WlsEncode(b)
  {
    Base64EncodeShape(b);
    var e := WlsEncode(b);
    assert forall i :: 0 <= i < |e| ==> IsTransportChar(e[i]);
  }

  /** `wls_decode` undoes `wls_encode` for every byte string. */
  lemma WlsRoundTrip(b: seq<byte>)
    ensures WlsDecode(WlsEncode(b)) == Some(b)
  {
    var s := Base64Encode(b);
    Base64EncodeShape(b);
    var back := ReplaceChar(ReplaceChar(ReplaceChar(WlsEncode(b), '-', '+'), '.', '/'), '_', '=');
    assert |back| == |s|;
    assert forall i :: 0 <= i < |s| ==> back[i] == s[i];
    assert back == s;
    Base64RoundTrip(b);
  }

  /** `wls_encode` output length: four characters per started group of three bytes. */
  lemma WlsEncodeLength(b: seq<byte>)
    ensures |WlsEncode(b)| == 4 * ((|b| + 2) / 3)
  {
    Base64EncodeShape(b);
  }
}
