/** Strings as the agent's C# code sees them: references that may be null,
    `String.Split` and `String.Join` on a single separator character,
    `Convert.ToInt32` on a string, and the ASCII conversions it relies on. */
module Text {

  /** A C# `string` reference, which may be null. */
  datatype NString = Null | Str(value: string)

  datatype Option<T> = None | Some(value: T)

  type byte = b: int | 0 <= b < 256

  /** What concatenation makes of a possibly-null string: null counts as "". */
  function OrEmpty(n: NString): string
  {
    if n.Str? then n.value else ""
  }

  // ---------------------------------------------------------------------------
  // String.Split(c) and String.Join(c, parts)
  // ---------------------------------------------------------------------------

  /** `s.Split(c)`: the pieces between separators, empty pieces kept, so a
      string with n separators gives n + 1 pieces. */
  function Split(s: string, c: char): (r: seq<string>)
    ensures |r| >= 1
    decreases |s|
  {
    if |s| == 0 then [""]
    else
      var t := Split(s[1..], c);
      if s[0] == c then [""] + t else [[s[0]] + t[0]] + t[1..]
  }

  /** `String.Join(c, parts)`; joining no parts gives "". */
  function Join(parts: seq<string>, c: char): string
    decreases |parts|
  {
    if |parts| == 0 then ""
    else if |parts| == 1 then parts[0]
    else parts[0] + [c] + Join(parts[1..], c)
  }

  /** No piece produced by Split holds the separator. */
  lemma {:induction false} SplitPiecesFree(s: string, c: char)
    ensures forall i :: 0 <= i < |Split(s, c)| ==> c !in Split(s, c)[i]
    decreases |s|
  {
    if |s| > 0 {
      SplitPiecesFree(s[1..], c);
      var t := Split(s[1..], c);
      if s[0] != c {
        assert forall i :: 1 <= i < |t| ==> t[1..][i - 1] == t[i];
      }
    }
  }

  /** Joining what Split produced gives back the original string. */
  lemma {:induction false} JoinSplit(s: string, c: char)
    ensures Join(Split(s, c), c) == s
    decreases |s|
  {
    if |s| > 0 {
      JoinSplit(s[1..], c);
      var t := Split(s[1..], c);
      if s[0] == c {
        assert ([""] + t)[1..] == t;
      } else {
        var u := [[s[0]] + t[0]] + t[1..];
        if |t| > 1 {
          assert u[1..] == t[1..];
          assert Join(t, c) == t[0] + [c] + Join(t[1..], c);
        }
      }
    }
  }

  /** A string without the separator splits into itself alone. */
  lemma {:induction false} SplitWithoutSeparator(s: string, c: char)
    requires c !in s
    ensures Split(s, c) == [s]
    decreases |s|
  {
    if |s| > 0 {
      SplitWithoutSeparator(s[1..], c);
      assert [s[0]] + s[1..] == s;
    }
  }

  /** Splitting distributes over a separator placed between two strings. */
  lemma {:induction false} SplitAround(a: string, b: string, c: char)
    ensures Split(a + [c] + b, c) == Split(a, c) + Split(b, c)
    decreases |a|
  {
    if |a| == 0 {
      SplitAroundEmpty(a, b, c);
    } else {
      SplitAround(a[1..], b, c);
      SplitAroundCons(a, b, c);
    }
  }

  /** SplitAround when the left string is empty. */
  lemma SplitAroundEmpty(a: string, b: string, c: char)
    requires |a| == 0
    ensures Split(a + [c] + b, c) == Split(a, c) + Split(b, c)
  {
    var x := a + [c] + b;
    assert x == [c] + b && x[1..] == b;
    SplitStep(x, c);
    assert Split(a, c) == [""];
  }

  /** SplitAround for a non-empty left string, given it for its tail. */
  lemma SplitAroundCons(a: string, b: string, c: char)
    requires |a| > 0
    requires Split(a[1..] + [c] + b, c) == Split(a[1..], c) + Split(b, c)
    ensures Split(a + [c] + b, c) == Split(a, c) + Split(b, c)
  {
    var x := a + [c] + b;
    assert x[0] == a[0] && x[1..] == a[1..] + [c] + b;
    SplitStep(x, c);
    SplitStep(a, c);
    var t, u := Split(a[1..], c), Split(b, c);
    if a[0] == c {
      SeqCons([""], t, u);
    } else {
      SplitHeadJoin([a[0]], t, u);
    }
  }

  lemma SeqCons(h: seq<string>, t: seq<string>, u: seq<string>)
    ensures h + (t + u) == (h + t) + u
  {
  }

  /** Prefixing the first piece distributes over appending more pieces. */
  lemma SplitHeadJoin(p: string, t: seq<string>, u: seq<string>)
    requires |t| > 0
    ensures [p + (t + u)[0]] + (t + u)[1..] == ([p + t[0]] + t[1..]) + u
  {
    assert (t + u)[0] == t[0] && (t + u)[1..] == t[1..] + u;
  }

  /** One step of Split: the first character either ends the first piece or
      joins it. */
  lemma SplitStep(s: string, c: char)
    requires |s| > 0
    ensures var t := Split(s[1..], c);
      Split(s, c) == if s[0] == c then [""] + t else [[s[0]] + t[0]] + t[1..]
  {
  }

  /** Split undoes Join when no part holds the separator. */
  lemma {:induction false} SplitJoin(parts: seq<string>, c: char)
    requires |parts| >= 1
    requires forall i :: 0 <= i < |parts| ==> c !in parts[i]
    ensures Split(Join(parts, c), c) == parts
    decreases |parts|
  {
    if |parts| == 1 {
      SplitWithoutSeparator(parts[0], c);
    } else {
      SplitJoin(parts[1..], c);
      SplitAround(parts[0], Join(parts[1..], c), c);
      SplitWithoutSeparator(parts[0], c);
      assert [parts[0]] + parts[1..] == parts;
    }
  }

  /** Appending one more part to a join adds one separator and the part. */
  lemma {:induction false} JoinSnoc(parts: seq<string>, x: string, c: char)
    requires |parts| >= 1
    ensures Join(parts + [x], c) == Join(parts, c) + [c] + x
    decreases |parts|
  {
    if |parts| == 1 {
      assert (parts + [x])[1..] == [x];
    } else {
      JoinSnoc(parts[1..], x, c);
      assert (parts + [x])[1..] == parts[1..] + [x];
    }
  }

  // ---------------------------------------------------------------------------
  // Replace(from, to) on single characters
  // ---------------------------------------------------------------------------

  /** `s.Replace(from, to)` for one-character arguments: every occurrence is replaced. */
  function ReplaceChar(s: string, from: char, to: char): (r: string)
    ensures |r| == |s|
    ensures forall i :: 0 <= i < |s| ==> r[i] == (if s[i] == from then to else s[i])
  {
    seq(|s|, i requires 0 <= i < |s| => if s[i] == from then to else s[i])
  }

  // ---------------------------------------------------------------------------
  // ASCII
  // ---------------------------------------------------------------------------

  /** `ASCIIEncoding.ASCII.GetBytes`: characters outside ASCII become '?' (63). */
  function AsciiBytes(s: string): (r: seq<byte>)
    ensures |r| == |s|
    ensures forall i :: 0 <= i < |s| ==> (s[i] as int < 128 ==> r[i] == s[i] as int)
  {
    seq(|s|, i requires 0 <= i < |s| => if s[i] as int < 128 then s[i] as int else 63)
  }

  function AsciiLowerChar(ch: char): char
  {
    if 'A' <= ch <= 'Z' then (ch as int + 32) as char else ch
  }

  /** Lower-casing restricted to ASCII letters. */
  function AsciiLower(s: string): (r: string)
    ensures |r| == |s|
  {
    seq(|s|, i requires 0 <= i < |s| => AsciiLowerChar(s[i]))
  }

  // ---------------------------------------------------------------------------
  // Convert.ToInt32(string)
  // ---------------------------------------------------------------------------

  const Int32Min: int := -0x8000_0000
  const Int32Max: int := 0x7fff_ffff

  predicate IsDigit(ch: char) { '0' <= ch <= '9' }

  /** White space that .NET number parsing skips: space and U+0009..U+000D. */
  predicate IsWhite(ch: char) { ch == ' ' || '\t' <= ch <= '\r' }

  predicate AllDigits(s: string) { forall i :: 0 <= i < |s| ==> IsDigit(s[i]) }

  function DigitsValue(s: string): (n: nat)
    requires AllDigits(s)
    decreases |s|
  {
    if |s| == 0 then 0 else DigitsValue(s[..|s| - 1]) * 10 + (s[|s| - 1] as int - '0' as int)
  }

  function TrimStartWhite(s: string): (r: string)
    ensures |r| <= |s| && r == s[|s| - |r|..]
    ensures |r| > 0 ==> !IsWhite(r[0])
    decreases |s|
  {
    if |s| > 0 && IsWhite(s[0]) then TrimStartWhite(s[1..]) else s
  }

  function TrimEndWhite(s: string): (r: string)
    ensures |r| <= |s| && r == s[..|r|]
    ensures |r| > 0 ==> !IsWhite(r[|r| - 1])
    decreases |s|
  {
    if |s| > 0 && IsWhite(s[|s| - 1]) then TrimEndWhite(s[..|s| - 1]) else s
  }

  /** `Convert.ToInt32(s)` for a non-null string: optional white space, an
      optional sign, at least one digit, optional white space, and a value
      inside the 32-bit range. `None` stands for the FormatException or
      OverflowException it throws otherwise. */
  function ParseInt32(s: string): (r: Option<int>)
    ensures r.Some? ==> Int32Min <= r.value <= Int32Max
  {
    var t := TrimEndWhite(TrimStartWhite(s));
    if |t| == 0 then None
    else
      var signed := t[0] == '+' || t[0] == '-';
      var digits := if signed then t[1..] else t;
      if |digits| == 0 || !AllDigits(digits) then None
      else
        var d: int := DigitsValue(digits);
        var v := if t[0] == '-' then -d else d;
        if Int32Min <= v <= Int32Max then Some(v) else None
  }

  /** `n` written with exactly `width` decimal digits, zero padded. */
  function PadDigits(n: nat, width: nat): (r: string)
    ensures |r| == width && AllDigits(r)
    decreases width
  {
    if width == 0 then "" else PadDigits(n / 10, width - 1) + [('0' as int + n % 10) as char]
  }

  function Pow10(k: nat): (p: nat)
    ensures p >= 1
  {
    if k == 0 then 1 else 10 * Pow10(k - 1)
  }

  lemma {:induction false} PadDigitsValue(n: nat, width: nat)
    requires n < Pow10(width)
    ensures DigitsValue(PadDigits(n, width)) == n
    decreases width
  {
    if width > 0 {
      PadDigitsValue(n / 10, width - 1);
      var r := PadDigits(n, width);
      assert r[..width - 1] == PadDigits(n / 10, width - 1);
    }
  }

  /** Convert.ToInt32 reads back what PadDigits wrote. */
  lemma PadDigitsParse(n: nat, width: nat)
    requires 1 <= width <= 4 && n < Pow10(width)
    ensures ParseInt32(PadDigits(n, width)) == Some(n)
  {
    PadDigitsValue(n, width);
    Pow10Small(width);
    ParseDigits(PadDigits(n, width));
  }

  /** A non-empty run of digits within the 32-bit range parses to its value. */
  lemma ParseDigits(s: string)
    requires |s| > 0 && AllDigits(s) && DigitsValue(s) <= Int32Max
    ensures ParseInt32(s) == Some(DigitsValue(s))
  {
    TrimStartNoWhite(s);
    TrimEndNoWhite(s);
    assert s[0] != '+' && s[0] != '-' by { assert IsDigit(s[0]); }
  }

  lemma TrimStartNoWhite(s: string)
    requires |s| > 0 && IsDigit(s[0])
    ensures TrimStartWhite(s) == s
  {
  }

  lemma TrimEndNoWhite(s: string)
    requires |s| > 0 && IsDigit(s[|s| - 1])
    ensures TrimEndWhite(s) == s
  {
  }

  lemma Pow10Small(k: nat)
    requires k <= 4
    ensures Pow10(k) <= 10000
  {
    if k > 0 { Pow10Small(k - 1); }
  }
}
