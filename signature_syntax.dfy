/**
 * The text of a byte signature such as "48 8B ?? 05": how it is cut into tokens and how
 * a token is read as a byte, by .NET's `Convert.ToByte(token, 16)` and by JavaScript's
 * `parseInt(token, 16)` followed by `Buffer.from`. The scanners parse signatures with
 * these, and writing a signature out with `Format` gives a text they read back.
 */
module SignatureSyntax {
  import opened Wrappers
  import opened Bytes
  import opened Text

  // ---- Hexadecimal digits ----

  /** The value of a hexadecimal digit of either case. */
  function HexDigitValue(c: char): (r: Option<nat>)
    ensures r.Some? <==> ('0' <= c <= '9' || 'a' <= c <= 'f' || 'A' <= c <= 'F')
    ensures r.Some? ==> r.value < 16
  {
    if '0' <= c <= '9' then Some(c as int - '0' as int)
    else if 'a' <= c <= 'f' then Some(c as int - 'a' as int + 10)
    else if 'A' <= c <= 'F' then Some(c as int - 'A' as int + 10)
    else None
  }

  predicate IsHexDigit(c: char) {
    HexDigitValue(c).Some?
  }

  /** The value of a run of hexadecimal digits, most significant first; nothing if a character is not one. */
  function HexValue(s: string): (r: Option<nat>)
    ensures r.Some? <==> forall i :: 0 <= i < |s| ==> IsHexDigit(s[i])
  {
    if |s| == 0 then Some(0)
    else
      match HexValue(s[..|s| - 1])
      case None => None
      case Some(v) =>
        match HexDigitValue(s[|s| - 1])
        case None => None
        case Some(d) => Some(16 * v + d)
  }

  /** The upper-case digits are read back as their values. */
  lemma UpperDigitValue(d: nat)
    requires d < 16
    ensures HexDigitValue(UpperHexDigit(d)) == Some(d)
  {
  }

  // ---- .NET ----

  /** `Convert.ToByte(token, 16)`'s prefix: an optional "+", then an optional "0x" or "0X". */
  function DotNetDigits(token: string): string {
    var unsigned := if |token| > 0 && token[0] == '+' then token[1..] else token;
    if |unsigned| >= 2 && unsigned[0] == '0' && (unsigned[1] == 'x' || unsigned[1] == 'X') then unsigned[2..]
    else unsigned
  }

  /**
   * `Convert.ToByte(token, 16)`: after the prefix, one hexadecimal digit or more and
   * nothing else, with a value below 256. Anything else throws (no whitespace is
   * skipped, and a minus sign is refused for base 16).
   */
  function ConvertToByte(token: string): (r: Option<byte>)
    ensures r.Some? ==> && token != ""
                        && DotNetDigits(token) != ""
                        && HexValue(DotNetDigits(token)) == Some(r.value as nat)
    ensures r.None? <==> DotNetDigits(token) == "" || HexValue(DotNetDigits(token)).None?
                         || HexValue(DotNetDigits(token)).value >= 256
  {
    var digits := DotNetDigits(token);
    if |digits| == 0 then None
    else
      match HexValue(digits)
      case None => None
      case Some(v) => if v < 256 then Some(v as byte) else None
  }

  /** Two hexadecimal digits are worth sixteen times the first plus the second. */
  lemma HexPair(c0: char, c1: char)
    requires IsHexDigit(c0) && IsHexDigit(c1)
    ensures HexValue([c0, c1]) == Some(16 * HexDigitValue(c0).value + HexDigitValue(c1).value)
  {
    var s := [c0, c1];
    assert s[..1] == [c0];
    assert [c0][..0] == [];
    assert HexValue([c0]) == Some(HexDigitValue(c0).value);
    assert s[|s| - 1] == c1;
  }

  /** Two upper-case hexadecimal digits, the way signatures are written, read back as the byte. */
  lemma ConvertUpperPair(b: byte)
    ensures ConvertToByte(UpperPair(b)) == Some(b)
  {
    var h, l := b as int / 16, b as int % 16;
    UpperDigitValue(h);
    UpperDigitValue(l);
    HexPair(UpperHexDigit(h), UpperHexDigit(l));
    assert DotNetDigits(UpperPair(b)) == UpperPair(b);
  }

  /** A token a signature marks as a wildcard byte. */
  predicate IsWildcard(token: string) {
    token == "??" || token == "?"
  }

  /** A token that is neither a wildcard nor a byte `Convert.ToByte` accepts: parsing it throws. */
  predicate Refused(token: string) {
    !IsWildcard(token) && ConvertToByte(token).None?
  }

  // ---- Tokens ----

  predicate IsBlank(c: char) {
    c == ' ' || c == '\t'
  }

  /** `s.Split(new[] { ' ', '\t' })`: the pieces between blanks, empty pieces included. */
  function SplitBlanks(s: string): (r: seq<string>)
    ensures |r| >= 1
    ensures forall i, k :: 0 <= i < |r| && 0 <= k < |r[i]| ==> !IsBlank(r[i][k])
  {
    if |s| == 0 then [""]
    else
      var rest := SplitBlanks(s[1..]);
      if IsBlank(s[0]) then [""] + rest else [[s[0]] + rest[0]] + rest[1..]
  }

  /** `StringSplitOptions.RemoveEmptyEntries`. */
  function NonEmpty(parts: seq<string>): (r: seq<string>)
    ensures |r| <= |parts|
    ensures forall i :: 0 <= i < |r| ==> r[i] != "" && r[i] in parts
    ensures forall p :: p in parts && p != "" ==> p in r
  {
    if |parts| == 0 then [] else (if parts[0] == "" then [] else [parts[0]]) + NonEmpty(parts[1..])
  }

  /** A token that survives cutting at blanks: not empty, and without a space or a tab. */
  predicate IsWord(t: string) {
    t != "" && forall k :: 0 <= k < |t| ==> !IsBlank(t[k])
  }

  /** The words of `s`: the non-empty runs of characters other than space and tab. */
  function Tokens(s: string): (r: seq<string>)
    ensures forall i :: 0 <= i < |r| ==> IsWord(r[i])
  {
    NonEmpty(SplitBlanks(s))
  }

  /** A piece without blanks, a space, then the rest: the piece comes first. */
  lemma {:induction false} SplitBlanksAfterPiece(a: string, b: string)
    requires forall k :: 0 <= k < |a| ==> !IsBlank(a[k])
    ensures SplitBlanks(a + " " + b) == [a] + SplitBlanks(b)
  {
    if |a| == 0 {
      assert a + " " + b == " " + b;
      assert (" " + b)[1..] == b;
    } else {
      assert (a + " " + b)[0] == a[0];
      assert (a + " " + b)[1..] == a[1..] + " " + b;
      SplitBlanksAfterPiece(a[1..], b);
      assert [a[0]] + a[1..] == a;
    }
  }

  /** A text without blanks is a single piece. */
  lemma {:induction false} SplitBlanksWithout(a: string)
    requires forall k :: 0 <= k < |a| ==> !IsBlank(a[k])
    ensures SplitBlanks(a) == [a]
  {
    if |a| > 0 {
      SplitBlanksWithout(a[1..]);
      assert [a[0]] + a[1..] == a;
    }
  }

  /** Words joined by single spaces are cut back into those words. */
  lemma {:induction false} TokensOfJoin(parts: seq<string>)
    requires |parts| >= 1
    requires forall i :: 0 <= i < |parts| ==> IsWord(parts[i])
    ensures SplitBlanks(Join(parts, ' ')) == parts
    ensures Tokens(Join(parts, ' ')) == parts
  {
    if |parts| == 1 {
      SplitBlanksWithout(parts[0]);
    } else {
      TokensOfJoin(parts[1..]);
      SplitBlanksAfterPiece(parts[0], Join(parts[1..], ' '));
      assert parts[0] + [' '] + Join(parts[1..], ' ') == parts[0] + " " + Join(parts[1..], ' ');
      assert [parts[0]] + parts[1..] == parts;
    }
    NonEmptyKeeps(parts);
  }

  /** Removing the empty pieces of pieces that are all non-empty changes nothing. */
  lemma {:induction false} NonEmptyKeeps(parts: seq<string>)
    requires forall i :: 0 <= i < |parts| ==> parts[i] != ""
    ensures NonEmpty(parts) == parts
  {
    if |parts| > 0 {
      NonEmptyKeeps(parts[1..]);
      assert [parts[0]] + parts[1..] == parts;
    }
  }

  /** The token that writes one byte of a signature: "??" for a wildcard, otherwise its two upper-case digits. */
  function TokenOf(b: byte, wildcard: bool): (t: string)
    ensures IsWord(t)
    ensures IsWildcard(t) <==> wildcard
  {
    if wildcard then "??"
    else
      var h, l := b as int / 16, b as int % 16;
      UpperDigitValue(h);
      assert UpperPair(b)[0] == UpperHexDigit(h) && IsHexDigit(UpperHexDigit(h));
      UpperPair(b)
  }

  /** Tokens written one after another with a space between them; no tokens is the empty text. */
  function Format(tokens: seq<string>): string {
    if |tokens| == 0 then "" else Join(tokens, ' ')
  }

  /**
   * Words written out by `Format` are cut back into the same words, both at blanks with
   * the empty pieces removed and, when there is at least one, at single spaces.
   */
  lemma FormatTokens(tokens: seq<string>)
    requires forall i :: 0 <= i < |tokens| ==> IsWord(tokens[i])
    ensures Tokens(Format(tokens)) == tokens
    ensures |tokens| >= 1 ==> Split(Format(tokens), ' ') == tokens
  {
    if |tokens| >= 1 {
      TokensOfJoin(tokens);
      forall i | 0 <= i < |tokens|
        ensures ' ' !in tokens[i]
      {
        assert IsWord(tokens[i]);
      }
      SplitJoin(tokens, ' ');
    }
  }

  // ---- JavaScript ----

  /** The characters `parseInt` skips in front of a number: ECMAScript's white space and line terminators. */
  predicate IsJsSpace(c: char) {
    || c == '\t' || c == '\n' || c == '\U{000B}' || c == '\U{000C}' || c == '\r' || c == ' '
    || c == '\U{00A0}' || c == '\U{1680}' || ('\U{2000}' <= c <= '\U{200A}') || c == '\U{2028}' || c == '\U{2029}'
    || c == '\U{202F}' || c == '\U{205F}' || c == '\U{3000}' || c == '\U{FEFF}'
  }

  function TrimStart(s: string): (r: string)
    ensures |r| <= |s| && r == s[|s| - |r|..]
    ensures |r| > 0 ==> !IsJsSpace(r[0])
  {
    if |s| > 0 && IsJsSpace(s[0]) then TrimStart(s[1..]) else s
  }

  /** The longest run of hexadecimal digits `s` starts with. */
  function HexPrefix(s: string): (r: string)
    ensures |r| <= |s| && r == s[..|r|]
    ensures forall i :: 0 <= i < |r| ==> IsHexDigit(r[i])
    ensures |r| < |s| ==> !IsHexDigit(s[|r|])
  {
    if |s| > 0 && IsHexDigit(s[0]) then [s[0]] + HexPrefix(s[1..]) else ""
  }

  /**
   * `parseInt(token, 16)`: skip leading white space, take a sign, drop a "0x" or "0X",
   * then read the longest run of hexadecimal digits; no digits is NaN (`None`).
   */
  function ParseIntHex(token: string): (r: Option<int>)
  {
    var t := TrimStart(token);
    var negative := |t| > 0 && t[0] == '-';
    var unsigned := if |t| > 0 && (t[0] == '+' || t[0] == '-') then t[1..] else t;
    var body := if |unsigned| >= 2 && unsigned[0] == '0' && (unsigned[1] == 'x' || unsigned[1] == 'X') then unsigned[2..]
                else unsigned;
    var digits := HexPrefix(body);
    if |digits| == 0 then None
    else
      var v: int := HexValue(digits).value;
      if negative then Some(-v) else Some(v)
  }

  /** How `Buffer.from` stores a number in a byte: modulo 256, and NaN as 0. */
  function ToUint8(n: Option<int>): (r: byte)
    ensures n.Some? && 0 <= n.value < 256 ==> r as int == n.value
    ensures n.None? ==> r == 0
  {
    match n
    case None => 0
    case Some(v) => (v % 256) as byte
  }

  /** A text of hexadecimal digits only is its own longest hexadecimal prefix. */
  lemma {:induction false} HexPrefixAll(s: string)
    requires forall i :: 0 <= i < |s| ==> IsHexDigit(s[i])
    ensures HexPrefix(s) == s
  {
    if |s| > 0 {
      HexPrefixAll(s[1..]);
      assert [s[0]] + s[1..] == s;
    }
  }

  /** Two upper-case hexadecimal digits are read by `parseInt` as the byte. */
  lemma ParseIntUpperPair(b: byte)
    ensures ParseIntHex(UpperPair(b)) == Some(b as int)
  {
    ConvertUpperPair(b);
    ParseIntAgrees(UpperPair(b));
  }

  /** A token `Convert.ToByte` accepts starts with a plus sign or a hexadecimal digit. */
  lemma ConvertedStart(token: string)
    requires ConvertToByte(token).Some?
    ensures token[0] == '+' || IsHexDigit(token[0])
  {
    var digits := DotNetDigits(token);
    if token[0] != '+' && digits == token {
      assert IsHexDigit(digits[0]);
    }
  }

  /** Every token `Convert.ToByte` accepts is read by `parseInt` as the same byte. */
  lemma ParseIntAgrees(token: string)
    requires ConvertToByte(token).Some?
    ensures ParseIntHex(token) == Some(ConvertToByte(token).value as int)
  {
    var digits := DotNetDigits(token);
    ConvertedStart(token);
    assert !IsJsSpace(token[0]);
    var t := TrimStart(token);
    assert t == token;
    var unsigned := if |t| > 0 && (t[0] == '+' || t[0] == '-') then t[1..] else t;
    var body := if |unsigned| >= 2 && unsigned[0] == '0' && (unsigned[1] == 'x' || unsigned[1] == 'X') then unsigned[2..]
                else unsigned;
    assert body == digits;
    HexPrefixAll(digits);
    assert HexPrefix(body) == digits;
  }
}
