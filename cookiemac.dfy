/** The session-cookie MAC (`hmac_sha1`, `hmac_sha1_verify`): the HMAC-SHA1
    digest of the data under the cookie key, written as lowercase hex, and
    that hex text (as ASCII bytes) passed through `wls_encode`. The digest
    itself is a parameter: the agent obtains it from the platform's HMACSHA1. */
module CookieMac {
  import opened Text
  import opened Transport

  /** HMAC-SHA1 as the platform computes it: key bytes, data bytes, digest bytes. */
  type Digest = (seq<byte>, seq<byte>) -> seq<byte>

  function HexDigit(v: int): (ch: char)
    requires 0 <= v < 16
  {
    if v < 10 then ('0' as int + v) as char else ('a' as int + v - 10) as char
  }

  predicate IsLowerHex(ch: char) { '0' <= ch <= '9' || 'a' <= ch <= 'f' }

  function HexDigitValue(ch: char): (r: Option<int>)
    ensures r.Some? ==> 0 <= r.value < 16 && HexDigit(r.value) == ch
  {
    if '0' <= ch <= '9' then Some(ch as int - '0' as int)
    else if 'a' <= ch <= 'f' then Some(ch as int - 'a' as int + 10)
    else None
  }

  /** `b.ToString("x2")`: two lowercase hex digits, high nibble first. */
  function HexByte(b: byte): (s: string)
  {
    [HexDigit(b / 16), HexDigit(b % 16)]
  }

  /** The hex rendering of a digest, byte after byte. */
  function Hex(bs: seq<byte>): (s: string)
    decreases |bs|
  {
    if |bs| == 0 then "" else Hex(bs[..|bs| - 1]) + HexByte(bs[|bs| - 1])
  }

  /** Reading lowercase hex back into bytes (the partner used to state that
      the rendering loses nothing). */
  function HexDecode(s: string): (r: Option<seq<byte>>)
    decreases |s|
  {
    if |s| == 0 then Some([])
    else if |s| == 1 then None
    else
      match (HexDecode(s[..|s| - 2]), HexDigitValue(s[|s| - 2]), HexDigitValue(s[|s| - 1]))
      case (Some(init), Some(hi), Some(lo)) => Some(init + [hi * 16 + lo])
      case _ => None
  }

  /** Exactly two lowercase hex digits per digest byte, the k-th pair being byte k. */
  lemma {:induction false} HexShape(bs: seq<byte>)
    ensures |Hex(bs)| == 2 * |bs|
    ensures forall i :: 0 <= i < |Hex(bs)| ==> IsLowerHex(Hex(bs)[i])
    ensures forall k :: 0 <= k < |bs| ==> Hex(bs)[2 * k..2 * k + 2] == HexByte(bs[k])
    decreases |bs|
  {
    if |bs| > 0 {
      var init := bs[..|bs| - 1];
      HexShape(init);
      var h := Hex(bs);
      assert h == Hex(init) + HexByte(bs[|bs| - 1]);
      forall k | 0 <= k < |bs|
        ensures h[2 * k..2 * k + 2] == HexByte(bs[k])
      {
        if k < |bs| - 1 {
          assert h[2 * k..2 * k + 2] == Hex(init)[2 * k..2 * k + 2];
          assert init[k] == bs[k];
        }
      }
    }
  }

  /** Reading the hex rendering back gives the digest. */
  lemma HexRoundTrip(bs: seq<byte>)
    ensures HexDecode(Hex(bs)) == Some(bs)
  {
    HexShape(bs);
    HexDecodeOfPairs(Hex(bs), bs);
  }

  /** A string made of the hex pairs of the bytes, in order, decodes to them. */
  lemma {:induction false} HexDecodeOfPairs(s: string, bs: seq<byte>)
    requires |s| == 2 * |bs|
    requires forall k :: 0 <= k < |bs| ==> s[2 * k..2 * k + 2] == HexByte(bs[k])
    ensures HexDecode(s) == Some(bs)
    decreases |bs|
  {
    if |bs| > 0 {
      var n := |bs|;
      var init, last := bs[..n - 1], bs[n - 1];
      var t := s[..|s| - 2];
      forall k | 0 <= k < n - 1 ensures t[2 * k..2 * k + 2] == HexByte(init[k]) {
        assert t[2 * k..2 * k + 2] == s[2 * k..2 * k + 2];
      }
      HexDecodeOfPairs(t, init);
      assert s[2 * (n - 1)..2 * (n - 1) + 2] == HexByte(last);
      assert s[|s| - 2] == HexByte(last)[0] && s[|s| - 1] == HexByte(last)[1];
      HexByteDecodes(last);
      assert init + [last] == bs;
    }
  }

  /** The two digits of one byte read back as that byte. */
  lemma HexByteDecodes(b: byte)
    ensures HexDigitValue(HexByte(b)[0]) == Some(b / 16)
    ensures HexDigitValue(HexByte(b)[1]) == Some(b % 16)
    ensures (b / 16) * 16 + b % 16 == b
  {
  }

  /** The MAC the agent writes into and checks against the session cookie. */
  function Mac(digest: Digest, key: string, data: string): (sig: string)
  {
    WlsEncode(AsciiBytes(Hex(digest(AsciiBytes(key), AsciiBytes(data)))))
  }

  /** The MAC never holds '!', so it cannot be confused with a field separator,
      and decoding it gives back the ASCII hex text of the digest. */
  lemma MacShape(digest: Digest, key: string, data: string)
    ensures '!' !in Mac(digest, key, data)
    ensures forall i :: 0 <= i < |Mac(digest, key, data)| ==> IsTransportChar(Mac(digest, key, data)[i])
    ensures WlsDecode(Mac(digest, key, data)) == Some(AsciiBytes(Hex(digest(AsciiBytes(key), AsciiBytes(data)))))
  {
    var hex := AsciiBytes(Hex(digest(AsciiBytes(key), AsciiBytes(data))));
    WlsEncodeAlphabet(hex);
    WlsRoundTrip(hex);
  }

  /** With the 20-byte SHA-1 digest the MAC is 56 characters long: 40 hex
      digits, base64 encoded. */
  lemma MacLength(digest: Digest, key: string, data: string)
    requires |digest(AsciiBytes(key), AsciiBytes(data))| == 20
    ensures |Mac(digest, key, data)| == 56
  {
    var d := digest(AsciiBytes(key), AsciiBytes(data));
    HexShape(d);
    WlsEncodeLength(AsciiBytes(Hex(d)));
  }

  /** `hmac_sha1`: compute the digest, append two hex digits per byte, encode. */
  method HmacSha1(digest: Digest, key: string, data: string) returns (sig: string)
    ensures sig == Mac(digest, key, data)
  {
    var hashmessage := digest(AsciiBytes(key), AsciiBytes(data));
    var sbinary := "";
    for i := 0 to |hashmessage|
      invariant sbinary == Hex(hashmessage[..i])
    {
      assert hashmessage[..i + 1][..i] == hashmessage[..i];
      sbinary := sbinary + HexByte(hashmessage[i]);
    }
    assert hashmessage[..|hashmessage|] == hashmessage;
    sig := WlsEncode(AsciiBytes(sbinary));
  }

  /** `hmac_sha1_verify`: the signature is accepted exactly when it equals the MAC. */
  method HmacSha1Verify(digest: Digest, key: string, data: string, sig: string) returns (ok: bool)
    ensures ok <==> sig == Mac(digest, key, data)
  {
    var expected := HmacSha1(digest, key, data);
    ok := sig == expected;
  }
}
