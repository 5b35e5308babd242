/**
 * The string operations the archive code takes from .NET: `String.Split(char)`,
 * `String.Replace(char, char)`, `StartsWith`, `long.ToString()`/`long.Parse` on decimal
 * text, and the lower-case hexadecimal text of a digest.
 */
module Text {
  import opened Wrappers
  import opened Bytes

  /** `s.Replace(a, b)`: every `a` becomes `b`. */
  function ReplaceChar(s: string, a: char, b: char): (r: string)
    ensures |r| == |s|
    ensures forall i :: 0 <= i < |s| ==> r[i] == (if s[i] == a then b else s[i])
  {
    if |s| == 0 then "" else [if s[0] == a then b else s[0]] + ReplaceChar(s[1..], a, b)
  }

  /** Replacing in a concatenation is replacing in each part. */
  lemma ReplaceConcat(s: string, t: string, a: char, b: char)
    ensures ReplaceChar(s + t, a, b) == ReplaceChar(s, a, b) + ReplaceChar(t, a, b)
  {
    var l, r := ReplaceChar(s + t, a, b), ReplaceChar(s, a, b) + ReplaceChar(t, a, b);
    forall i | 0 <= i < |l|
      ensures l[i] == r[i]
    {
      if i < |s| {
        assert (s + t)[i] == s[i];
      } else {
        assert (s + t)[i] == t[i - |s|];
      }
    }
  }

  /** Replacing a character the text does not hold changes nothing. */
  lemma ReplaceAbsent(s: string, a: char, b: char)
    requires a !in s
    ensures ReplaceChar(s, a, b) == s
  {
    assert forall i :: 0 <= i < |s| ==> s[i] != a;
  }

  /** `s.Split(c)`: the pieces between the occurrences of `c`, empty pieces included. */
  function Split(s: string, c: char): (r: seq<string>)
    ensures |r| >= 1
    ensures forall i :: 0 <= i < |r| ==> c !in r[i]
  {
    if |s| == 0 then [""]
    else
      var rest := Split(s[1..], c);
      if s[0] == c then [""] + rest else [[s[0]] + rest[0]] + rest[1..]
  }

  /** A character the text does not hold is in none of its pieces. */
  lemma {:induction false} SplitAvoids(s: string, c: char, d: char)
    requires d !in s
    ensures forall i :: 0 <= i < |Split(s, c)| ==> d !in Split(s, c)[i]
  {
    if |s| > 0 {
      assert d !in s[1..];
      SplitAvoids(s[1..], c, d);
    }
  }

  /** `string.Join(c, parts)`. */
  function Join(parts: seq<string>, c: char): string
    requires |parts| >= 1
  {
    if |parts| == 1 then parts[0] else parts[0] + [c] + Join(parts[1..], c)
  }

  /** Splitting loses nothing: joining the pieces with the separator gives back the text. */
  lemma {:induction false} JoinSplit(s: string, c: char)
    ensures Join(Split(s, c), c) == s
  {
    if |s| > 0 {
      var rest := Split(s[1..], c);
      JoinSplit(s[1..], c);
      if s[0] != c {
        if |rest| == 1 {
          assert Join(Split(s, c), c) == [s[0]] + rest[0];
        } else {
          assert Join(Split(s, c), c) == [s[0]] + rest[0] + [c] + Join(rest[1..], c);
        }
      }
    }
  }

  /** A piece without the separator, the separator, then the rest: the piece comes first. */
  lemma {:induction false} SplitAfterPiece(a: string, c: char, b: string)
    requires c !in a
    ensures Split(a + [c] + b, c) == [a] + Split(b, c)
  {
    if |a| == 0 {
      assert a + [c] + b == [c] + b;
      assert ([c] + b)[1..] == b;
    } else {
      assert (a + [c] + b)[0] == a[0];
      assert (a + [c] + b)[1..] == a[1..] + [c] + b;
      SplitAfterPiece(a[1..], c, b);
      assert [a[0]] + a[1..] == a;
    }
  }

  /** Joining pieces that do not hold the separator and splitting again gives the pieces. */
  lemma {:induction false} SplitJoin(parts: seq<string>, c: char)
    requires |parts| >= 1 && forall i :: 0 <= i < |parts| ==> c !in parts[i]
    ensures Split(Join(parts, c), c) == parts
  {
    if |parts| == 1 {
      SplitWithout(parts[0], c);
    } else {
      SplitJoin(parts[1..], c);
      SplitAfterPiece(parts[0], c, Join(parts[1..], c));
      assert [parts[0]] + parts[1..] == parts;
    }
  }

  /** The last piece of a join is set off by the last separator. */
  lemma {:induction false} JoinLast(parts: seq<string>, c: char)
    requires |parts| >= 2
    ensures Join(parts, c) == Join(parts[..|parts| - 1], c) + [c] + parts[|parts| - 1]
  {
    if |parts| > 2 {
      JoinLast(parts[1..], c);
      assert parts[1..][..|parts| - 2] == parts[..|parts| - 1][1..];
    }
  }

  /** Joining with one separator and replacing it by another is joining with the other. */
  lemma {:induction false} ReplaceJoin(parts: seq<string>, a: char, b: char)
    requires |parts| >= 1 && forall i :: 0 <= i < |parts| ==> a !in parts[i]
    ensures ReplaceChar(Join(parts, a), a, b) == Join(parts, b)
  {
    ReplaceAbsent(parts[0], a, b);
    if |parts| > 1 {
      ReplaceJoin(parts[1..], a, b);
      ReplaceConcat(parts[0] + [a], Join(parts[1..], a), a, b);
      ReplaceConcat(parts[0], [a], a, b);
    }
  }

  /** A joined text holds no character that neither the pieces nor the separator hold. */
  lemma {:induction false} JoinAvoids(parts: seq<string>, c: char, d: char)
    requires |parts| >= 1 && d != c && forall i :: 0 <= i < |parts| ==> d !in parts[i]
    ensures d !in Join(parts, c)
  {
    if |parts| > 1 {
      JoinAvoids(parts[1..], c, d);
    }
  }

  /** A join is at least as long as its first piece. */
  lemma JoinLength(parts: seq<string>, c: char)
    requires |parts| >= 1
    ensures |Join(parts, c)| >= |parts[0]|
  {
  }

  /** Replacing a character by itself changes nothing. */
  lemma ReplaceSelf(s: string, a: char)
    ensures ReplaceChar(s, a, a) == s
  {
  }

  /** Splitting a text without the separator gives the text alone. */
  lemma {:induction false} SplitWithout(s: string, c: char)
    requires c !in s
    ensures Split(s, c) == [s]
  {
    if |s| > 0 {
      assert s[0] != c && c !in s[1..];
      SplitWithout(s[1..], c);
      assert [s[0]] + s[1..] == s;
    }
  }

  predicate StartsWith(s: string, prefix: string) {
    |prefix| <= |s| && s[..|prefix|] == prefix
  }

  function DigitChar(d: nat): (c: char)
    requires d < 10
    ensures '0' <= c <= '9'
  {
    ['0', '1', '2', '3', '4', '5', '6', '7', '8', '9'][d]
  }

  function DigitValue(c: char): (r: Option<nat>)
    ensures r.Some? <==> '0' <= c <= '9'
    ensures r.Some? ==> r.value < 10 && DigitChar(r.value) == c
  {
    if '0' <= c <= '9' then Some(c as int - '0' as int) else None
  }

  /** `long.ToString()` of a non-negative value: its decimal digits, the first non-zero. */
  function Decimal(n: nat): (r: string)
    ensures |r| >= 1
    ensures forall i :: 0 <= i < |r| ==> '0' <= r[i] <= '9'
  {
    if n < 10 then [DigitChar(n)] else Decimal(n / 10) + [DigitChar(n % 10)]
  }

  /** The value of a run of decimal digits, read most significant first. */
  function DigitsValue(s: string): (r: Option<nat>)
    ensures r.Some? <==> forall i :: 0 <= i < |s| ==> '0' <= s[i] <= '9'
  {
    if |s| == 0 then Some(0)
    else
      match DigitsValue(s[..|s| - 1])
      case None => None
      case Some(v) =>
        match DigitValue(s[|s| - 1])
        case None => None
        case Some(d) => Some(10 * v + d)
  }

  /** The white space `NumberStyles.Integer` lets surround a number: tab to carriage return, and space. */
  predicate IsNumberBlank(c: char) {
    c == ' ' || '\t' <= c <= '\r'
  }

  predicate AllNumberBlank(s: string) {
    forall i :: 0 <= i < |s| ==> IsNumberBlank(s[i])
  }

  /** The text without its leading blanks. */
  function TrimStart(s: string): (r: string)
    ensures |r| <= |s| && r == s[|s| - |r|..]
    ensures r == "" || !IsNumberBlank(r[0])
  {
    if |s| > 0 && IsNumberBlank(s[0]) then TrimStart(s[1..]) else s
  }

  /** The text without its trailing blanks. */
  function TrimEnd(s: string): (r: string)
    ensures |r| <= |s| && r == s[..|r|]
    ensures r == "" || !IsNumberBlank(r[|r| - 1])
  {
    if |s| > 0 && IsNumberBlank(s[|s| - 1]) then TrimEnd(s[..|s| - 1]) else s
  }

  /**
   * `long.Parse` with `NumberStyles.Integer`: blanks around the number, an optional `+`
   * or `-`, then at least one digit, with a value that fits in a `long`; anything else
   * throws.
   */
  function ParseLong(s: string): (r: Option<int>)
    ensures r.Some? ==> -TWO63 <= r.value < TWO63
  {
    ParseSignedDigits(TrimEnd(TrimStart(s)))
  }

  /** An optional sign and at least one digit, nothing else. */
  function ParseSignedDigits(t: string): (r: Option<int>)
    ensures r.Some? ==> -TWO63 <= r.value < TWO63
  {
    var negative := |t| > 0 && t[0] == '-';
    var digits := if |t| > 0 && (t[0] == '+' || t[0] == '-') then t[1..] else t;
    if |digits| == 0 then None
    else
      match DigitsValue(digits)
      case None => None
      case Some(v) =>
        var x: int := if negative then -(v as int) else v;
        if -TWO63 <= x < TWO63 then Some(x) else None
  }

  /** The decimal text of a non-negative `long` parses back to the value. */
  lemma ParseDecimal(n: nat)
    requires n < TWO63
    ensures ParseLong(Decimal(n)) == Some(n)
  {
    ParseSigned("", "", n, "");
    assert "" + "" + Decimal(n) + "" == Decimal(n);
  }

  /**
   * What `long.Parse` accepts besides the bare digits: blanks before and after, and a
   * sign in front, as in " 12 ", "+12" and "-5".
   */
  lemma ParseSigned(lead: string, sign: string, n: nat, trail: string)
    requires AllNumberBlank(lead) && AllNumberBlank(trail)
    requires sign == "" || sign == "+" || sign == "-"
    requires if sign == "-" then n <= TWO63 else n < TWO63
    ensures var v: int := if sign == "-" then -(n as int) else n;
      ParseLong(lead + sign + Decimal(n) + trail) == Some(v)
  {
    var body := sign + Decimal(n);
    assert lead + sign + Decimal(n) + trail == lead + body + trail;
    SignedDecimalEnds(sign, n);
    TrimBoth(lead, body, trail);
    SignedDecimal(sign, n);
  }

  lemma SignedDecimalEnds(sign: string, n: nat)
    requires sign == "" || sign == "+" || sign == "-"
    ensures var body := sign + Decimal(n);
      body != "" && !IsNumberBlank(body[0]) && !IsNumberBlank(body[|body| - 1])
  {
    var d := Decimal(n);
    var body := sign + d;
    assert body[|body| - 1] == d[|d| - 1];
    if sign == "" {
      assert body[0] == d[0];
    } else {
      assert body[0] == sign[0];
    }
  }

  lemma SignedDecimal(sign: string, n: nat)
    requires sign == "" || sign == "+" || sign == "-"
    requires if sign == "-" then n <= TWO63 else n < TWO63
    ensures var v: int := if sign == "-" then -(n as int) else n;
      ParseSignedDigits(sign + Decimal(n)) == Some(v)
  {
    DigitsDecimal(n);
    SignedDigits(sign, Decimal(n), n);
  }

  lemma SignedDigits(sign: string, d: string, n: nat)
    requires sign == "" || sign == "+" || sign == "-"
    requires if sign == "-" then n <= TWO63 else n < TWO63
    requires d != "" && '0' <= d[0] <= '9' && DigitsValue(d) == Some(n)
    ensures var v: int := if sign == "-" then -(n as int) else n;
      ParseSignedDigits(sign + d) == Some(v)
  {
    var t := sign + d;
    if sign == "" {
      assert t == d;
    } else {
      assert |t| > 0 && t[0] == sign[0] && t[1..] == d;
      SignAndDigits(t, d, n, sign == "-");
    }
  }

  lemma SignAndDigits(t: string, d: string, n: nat, negative: bool)
    requires |t| > 0 && (t[0] == '+' || t[0] == '-') && (t[0] == '-' <==> negative) && t[1..] == d
    requires d != "" && DigitsValue(d) == Some(n)
    requires if negative then n <= TWO63 else n < TWO63
    ensures var v: int := if negative then -(n as int) else n;
      ParseSignedDigits(t) == Some(v)
  {
  }

  /** Trimming takes off exactly the blanks around a text that starts and ends with something else. */
  lemma TrimBoth(lead: string, body: string, trail: string)
    requires AllNumberBlank(lead) && AllNumberBlank(trail)
    requires body != "" && !IsNumberBlank(body[0]) && !IsNumberBlank(body[|body| - 1])
    ensures TrimEnd(TrimStart(lead + body + trail)) == body
  {
    assert lead + body + trail == lead + (body + trail);
    TrimLead(lead, body + trail);
    TrimTrail(body, trail);
  }

  lemma {:induction false} TrimLead(lead: string, rest: string)
    requires AllNumberBlank(lead) && (rest == "" || !IsNumberBlank(rest[0]))
    ensures TrimStart(lead + rest) == rest
  {
    if lead != [] {
      assert (lead + rest)[1..] == lead[1..] + rest;
      TrimLead(lead[1..], rest);
    }
  }

  lemma {:induction false} TrimTrail(rest: string, trail: string)
    requires AllNumberBlank(trail) && (rest == "" || !IsNumberBlank(rest[|rest| - 1]))
    ensures TrimEnd(rest + trail) == rest
  {
    if trail != [] {
      var t := rest + trail;
      assert t[..|t| - 1] == rest + trail[..|trail| - 1];
      TrimTrail(rest, trail[..|trail| - 1]);
    }
  }

  lemma {:induction false} DigitsDecimal(n: nat)
    ensures DigitsValue(Decimal(n)) == Some(n)
  {
    var s := Decimal(n);
    if n < 10 {
      assert s[..0] == "";
      DigitRoundTrip(n);
    } else {
      var q, d := n / 10, n % 10;
      DigitsDecimal(q);
      DigitRoundTrip(d);
      LastDigit(Decimal(q), d, q);
      assert 10 * q + d == n;
    }
  }

  lemma DigitRoundTrip(d: nat)
    requires d < 10
    ensures DigitValue(DigitChar(d)) == Some(d)
  {
  }

  /** Appending one digit to a run worth `v` gives a run worth `10 * v + d`. */
  lemma LastDigit(s: string, d: nat, v: nat)
    requires d < 10 && DigitsValue(s) == Some(v)
    ensures DigitsValue(s + [DigitChar(d)]) == Some(10 * v + d)
  {
    var t := s + [DigitChar(d)];
    assert t[..|t| - 1] == s;
    DigitRoundTrip(d);
  }

  /** The upper-case hexadecimal digit `BitConverter.ToString` writes. */
  function UpperHexDigit(d: nat): (c: char)
    requires d < 16
  {
    "0123456789ABCDEF"[d]
  }

  /** `ToLowerInvariant` on a character. */
  function Lower(c: char): char {
    if 'A' <= c <= 'Z' then (c as int + 32) as char else c
  }

  function LowerString(s: string): (r: string)
    ensures |r| == |s| && forall i :: 0 <= i < |s| ==> r[i] == Lower(s[i])
  {
    if |s| == 0 then "" else [Lower(s[0])] + LowerString(s[1..])
  }

  /** `s.Replace("-", "")`: the text without its dashes. */
  function RemoveChar(s: string, a: char): (r: string)
    ensures a !in r
  {
    if |s| == 0 then "" else (if s[0] == a then "" else [s[0]]) + RemoveChar(s[1..], a)
  }

  function UpperPair(b: byte): string {
    [UpperHexDigit(b as int / 16), UpperHexDigit(b as int % 16)]
  }

  /** `BitConverter.ToString(bytes)`: upper-case pairs joined by dashes ("AB-01-FF"). */
  function BitConverterString(bs: seq<byte>): string {
    if |bs| == 0 then ""
    else if |bs| == 1 then UpperPair(bs[0])
    else UpperPair(bs[0]) + "-" + BitConverterString(bs[1..])
  }

  /** `BitConverter.ToString(bytes).Replace("-", "").ToLowerInvariant()`. */
  function HexDigest(bs: seq<byte>): string {
    LowerString(RemoveChar(BitConverterString(bs), '-'))
  }

  /** The lower-case hexadecimal digit of `d`. */
  function LowerHexDigit(d: nat): (c: char)
    requires d < 16
  {
    "0123456789abcdef"[d]
  }

  /** The value of a lower-case hexadecimal digit. */
  function LowerHexValue(c: char): (r: Option<nat>)
    ensures r.Some? ==> r.value < 16 && LowerHexDigit(r.value) == c
  {
    if '0' <= c <= '9' then Some(c as int - '0' as int)
    else if 'a' <= c <= 'f' then Some(c as int - 'a' as int + 10)
    else None
  }

  /** Two lower-case hexadecimal digits per byte, most significant digit first. */
  function LowerHex(bs: seq<byte>): (r: string)
    ensures |r| == 2 * |bs|
  {
    if |bs| == 0 then "" else [LowerHexDigit(bs[0] as int / 16), LowerHexDigit(bs[0] as int % 16)] + LowerHex(bs[1..])
  }

  /** Reading lower-case hexadecimal text back into bytes. */
  function FromLowerHex(s: string): Option<seq<byte>>
    decreases |s|
  {
    if |s| == 0 then Some([])
    else if |s| == 1 then None
    else
      match (LowerHexValue(s[0]), LowerHexValue(s[1]), FromLowerHex(s[2..]))
      case (Some(h), Some(l), Some(rest)) => Some([(16 * h + l) as byte] + rest)
      case _ => None
  }

  lemma {:induction false} LowerOfRemoved(bs: seq<byte>)
    ensures HexDigest(bs) == LowerHex(bs)
  {
    if |bs| == 1 {
      PairDigest(bs[0]);
    } else if |bs| > 1 {
      var p := UpperPair(bs[0]);
      var t := BitConverterString(bs[1..]);
      assert BitConverterString(bs) == (p + "-") + t;
      LowerOfRemoved(bs[1..]);
      RemoveAppend(p + "-", t, '-');
      RemoveAppend(p, "-", '-');
      assert RemoveChar("-", '-') == "";
      PairDigest(bs[0]);
      LowerAppend(RemoveChar(p, '-'), RemoveChar(t, '-'));
    }
  }

  /** One byte: its dash-free lower-cased pair is its two lower-case digits. */
  lemma PairDigest(b: byte)
    ensures RemoveChar(UpperPair(b), '-') == UpperPair(b)
    ensures LowerString(UpperPair(b)) == [LowerHexDigit(b as int / 16), LowerHexDigit(b as int % 16)]
  {
    var p := UpperPair(b);
    UpperLower(b as int / 16);
    UpperLower(b as int % 16);
    assert p[1..][1..] == "";
    assert RemoveChar(p[1..], '-') == [p[1]];
    assert LowerString(p) == [Lower(p[0])] + LowerString(p[1..]);
    assert LowerString(p[1..]) == [Lower(p[1])];
  }

  lemma UpperLower(d: nat)
    requires d < 16
    ensures Lower(UpperHexDigit(d)) == LowerHexDigit(d) && UpperHexDigit(d) != '-'
  {
  }

  lemma {:induction false} RemoveAppend(a: string, b: string, c: char)
    ensures RemoveChar(a + b, c) == RemoveChar(a, c) + RemoveChar(b, c)
  {
    if |a| > 0 {
      assert (a + b)[1..] == a[1..] + b;
      RemoveAppend(a[1..], b, c);
    } else {
      assert a + b == b;
    }
  }

  lemma {:induction false} LowerAppend(a: string, b: string)
    ensures LowerString(a + b) == LowerString(a) + LowerString(b)
  {
    if |a| > 0 {
      assert (a + b)[1..] == a[1..] + b;
      LowerAppend(a[1..], b);
    } else {
      assert a + b == b;
    }
  }

  /**
   * The digest text is exactly two lower-case hexadecimal digits per byte, with no
   * separators, and reading it back gives the digest.
   */
  lemma {:induction false} HexDigestRoundTrip(bs: seq<byte>)
    ensures |HexDigest(bs)| == 2 * |bs|
    ensures forall i :: 0 <= i < |HexDigest(bs)| ==> HexDigest(bs)[i] in "0123456789abcdef"
    ensures FromLowerHex(HexDigest(bs)) == Some(bs)
  {
    LowerOfRemoved(bs);
    LowerHexDigits(bs);
    FromLowerHexInverts(bs);
  }

  lemma {:induction false} LowerHexDigits(bs: seq<byte>)
    ensures forall i :: 0 <= i < |LowerHex(bs)| ==> LowerHex(bs)[i] in "0123456789abcdef"
  {
    if |bs| > 0 {
      LowerHexDigits(bs[1..]);
      var s := LowerHex(bs);
      forall i | 0 <= i < |s|
        ensures s[i] in "0123456789abcdef"
      {
        if i >= 2 {
          assert s[i] == LowerHex(bs[1..])[i - 2];
        }
      }
    }
  }

  lemma {:induction false} FromLowerHexInverts(bs: seq<byte>)
    ensures FromLowerHex(LowerHex(bs)) == Some(bs)
  {
    if |bs| > 0 {
      FromLowerHexInverts(bs[1..]);
      HexPair(bs[0], LowerHex(bs[1..]), bs[1..]);
      assert [bs[0]] + bs[1..] == bs;
    }
  }

  /** The two digits of a byte in front of text that reads back as `rest` read back as the byte and `rest`. */
  lemma HexPair(b: byte, t: string, rest: seq<byte>)
    requires FromLowerHex(t) == Some(rest)
    ensures FromLowerHex([LowerHexDigit(b as int / 16), LowerHexDigit(b as int % 16)] + t) == Some([b] + rest)
  {
    var h, l := b as int / 16, b as int % 16;
    var s := [LowerHexDigit(h), LowerHexDigit(l)] + t;
    assert s[2..] == t;
    HexDigitValue(h);
    HexDigitValue(l);
    assert (16 * h + l) as byte == b;
  }

  lemma HexDigitValue(d: nat)
    requires d < 16
    ensures LowerHexValue(LowerHexDigit(d)) == Some(d)
  {
  }
}
