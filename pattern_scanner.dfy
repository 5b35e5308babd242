/**
 * `PatternScanner`'s search and signature parser: a signature is a byte array with a
 * mask text of the same length whose 'x' characters mark the bytes to compare, and a
 * search finds the first offset at which every marked byte is present.
 */
module PatternScanner {
  import opened Wrappers
  import opened Bytes
  import opened Text
  import opened SignatureSyntax
  import MemoryUtils

  /** The signature is found at `offset`: every position the mask marks with 'x' is inside the buffer and holds the signature's byte. */
  predicate MatchesAt(buffer: seq<byte>, signature: seq<byte>, mask: string, offset: int) {
    && |signature| <= |mask|
    && forall i :: 0 <= i < |signature| && mask[i] == 'x' ==>
         0 <= offset + i < |buffer| && buffer[offset + i] == signature[i]
  }

  /**
   * `r` is the first offset between 0 and `bytesRead - |signature|` at which the
   * signature is found, or -1 when it is found at none of them.
   */
  predicate FirstMatch(buffer: seq<byte>, bytesRead: int, signature: seq<byte>, mask: string, r: int) {
    || (r == -1 && forall i :: 0 <= i <= bytesRead - |signature| ==> !MatchesAt(buffer, signature, mask, i))
    || (&& 0 <= r <= bytesRead - |signature| && MatchesAt(buffer, signature, mask, r)
        && forall i :: 0 <= i < r ==> !MatchesAt(buffer, signature, mask, i))
  }

  /** There is only one first match. */
  lemma FirstMatchUnique(buffer: seq<byte>, bytesRead: int, signature: seq<byte>, mask: string, r1: int, r2: int)
    requires FirstMatch(buffer, bytesRead, signature, mask, r1)
    requires FirstMatch(buffer, bytesRead, signature, mask, r2)
    ensures r1 == r2
  {
  }

  /** A mask without 'x' matches at offset 0 as soon as the signature fits in the bytes read. */
  lemma WildcardsMatchFirst(buffer: seq<byte>, bytesRead: int, signature: seq<byte>, mask: string)
    requires |signature| <= bytesRead && |signature| <= |mask|
    requires forall i :: 0 <= i < |signature| ==> mask[i] != 'x'
    ensures FirstMatch(buffer, bytesRead, signature, mask, 0)
  {
    assert MatchesAt(buffer, signature, mask, 0);
  }

  /**
   * `IsMatch(buffer, signature, mask, offset)`: false at the first position marked 'x'
   * whose byte differs, true otherwise. The mask must cover the signature and the
   * marked positions must be inside the buffer, or the indexing throws.
   */
  method IsMatch(buffer: array<byte>, signature: array<byte>, mask: string, offset: int) returns (r: bool)
    requires 0 <= offset && signature.Length <= |mask|
    requires forall i :: 0 <= i < signature.Length && mask[i] == 'x' ==> offset + i < buffer.Length
    ensures r <==> MatchesAt(buffer[..], signature[..], mask, offset)
  {
    for i := 0 to signature.Length
      invariant forall k :: 0 <= k < i && mask[k] == 'x' ==> buffer[offset + k] == signature[k]
    {
      if mask[i] == 'x' && buffer[offset + i] != signature[i] {
        return false;
      }
    }
    return true;
  }

  /**
   * `FindPatternInBuffer(buffer, bytesRead, signature, mask)`: the first offset of the
   * bytes read at which the signature is found, or -1.
   */
  method FindPatternInBuffer(buffer: array<byte>, bytesRead: int, signature: array<byte>, mask: string) returns (r: int)
    requires signature.Length <= |mask| && bytesRead <= buffer.Length
    ensures FirstMatch(buffer[..], bytesRead, signature[..], mask, r)
    ensures bytesRead < signature.Length ==> r == -1
  {
    var i := 0;
    while i <= bytesRead - signature.Length
      invariant 0 <= i
      invariant forall k :: 0 <= k < i ==> !MatchesAt(buffer[..], signature[..], mask, k)
    {
      var found := IsMatch(buffer, signature, mask, i);
      if found {
        return i;
      }
      i := i + 1;
    }
    return -1;
  }

  // ---- Signatures ----

  /** The bytes and the mask text `ParseSignature` returns. */
  datatype Parse = Parse(bytes: seq<byte>, mask: string)

  /** What one token adds: (0, '?') for a wildcard, (the byte, 'x') for a byte written in hexadecimal. */
  function TokenEntry(token: string): (r: Option<(byte, char)>)
    ensures IsWildcard(token) ==> r == Some((0, '?'))
    ensures r.None? <==> Refused(token)
    ensures !IsWildcard(token) && r.Some? ==> r.value == (ConvertToByte(token).value, 'x')
  {
    if IsWildcard(token) then Some((0, '?'))
    else
      match ConvertToByte(token)
      case None => None
      case Some(b) => Some((b, 'x'))
  }

  /** The signature of a list of tokens, or nothing as soon as one of them is not a byte (`Convert.ToByte` throws). */
  function ParseTokens(tokens: seq<string>): (r: Option<Parse>)
    ensures r.Some? ==> |r.value.bytes| == |r.value.mask| == |tokens|
  {
    if |tokens| == 0 then Some(Parse([], ""))
    else
      match ParseTokens(tokens[..|tokens| - 1])
      case None => None
      case Some(p) =>
        match TokenEntry(tokens[|tokens| - 1])
        case None => None
        case Some(e) => Some(Parse(p.bytes + [e.0], p.mask + [e.1]))
  }

  /** The signature a text describes: its pieces between single spaces, empty pieces included. */
  function Parsed(signature: string): Option<Parse> {
    ParseTokens(Split(signature, ' '))
  }

  /** One more token adds its entry at the end, or refuses the text. */
  lemma ParseTokensSnoc(tokens: seq<string>, t: string)
    ensures ParseTokens(tokens + [t]) ==
      if ParseTokens(tokens).Some? && TokenEntry(t).Some? then
        Some(Parse(ParseTokens(tokens).value.bytes + [TokenEntry(t).value.0],
                   ParseTokens(tokens).value.mask + [TokenEntry(t).value.1]))
      else None
  {
    assert (tokens + [t])[..|tokens|] == tokens;
  }

  /** Each token gives its own entry, and the text is refused exactly when one token is not a byte. */
  lemma {:induction false} ParseTokensEntries(tokens: seq<string>)
    ensures ParseTokens(tokens).Some? <==> forall i :: 0 <= i < |tokens| ==> TokenEntry(tokens[i]).Some?
    ensures ParseTokens(tokens).Some? ==>
      forall i :: 0 <= i < |tokens| ==>
        TokenEntry(tokens[i]) == Some((ParseTokens(tokens).value.bytes[i], ParseTokens(tokens).value.mask[i]))
  {
    if |tokens| > 0 {
      var init := tokens[..|tokens| - 1];
      ParseTokensEntries(init);
      ParseTokensSnoc(init, tokens[|tokens| - 1]);
      assert init + [tokens[|tokens| - 1]] == tokens;
    }
  }

  /** Tokens whose entries are those of a signature parse to that signature. */
  lemma {:induction false} ParseTokensOf(tokens: seq<string>, p: Parse)
    requires |p.bytes| == |p.mask| == |tokens|
    requires forall i :: 0 <= i < |tokens| ==> TokenEntry(tokens[i]) == Some((p.bytes[i], p.mask[i]))
    ensures ParseTokens(tokens) == Some(p)
  {
    if |tokens| > 0 {
      var n := |tokens| - 1;
      ParseTokensOf(tokens[..n], Parse(p.bytes[..n], p.mask[..n]));
      ParseTokensSnoc(tokens[..n], tokens[n]);
      assert tokens[..n] + [tokens[n]] == tokens;
      assert p.bytes[..n] + [p.bytes[n]] == p.bytes;
      assert p.mask[..n] + [p.mask[n]] == p.mask;
    }
  }

  /**
   * A parsed signature has one byte and one mask character per piece, the mask is made
   * of 'x' and '?', '?' marks exactly the wildcard pieces, and their bytes are 0.
   */
  lemma ParsedShape(signature: string)
    requires Parsed(signature).Some?
    ensures |Parsed(signature).value.bytes| == |Parsed(signature).value.mask| == |Split(signature, ' ')|
    ensures forall i :: 0 <= i < |Split(signature, ' ')| ==>
              && (Parsed(signature).value.mask[i] == 'x' || Parsed(signature).value.mask[i] == '?')
              && (Parsed(signature).value.mask[i] == '?' <==> IsWildcard(Split(signature, ' ')[i]))
              && (Parsed(signature).value.mask[i] == '?' ==> Parsed(signature).value.bytes[i] == 0)
  {
    ParseTokensEntries(Split(signature, ' '));
  }

  /**
   * The text is refused exactly when one of its pieces is neither a wildcard nor a
   * hexadecimal byte.
   */
  lemma ParsedRefuses(signature: string)
    ensures Parsed(signature).None? <==> exists i :: 0 <= i < |Split(signature, ' ')| && Refused(Split(signature, ' ')[i])
  {
    var tokens := Split(signature, ' ');
    TokensRefused(tokens);
    if Parsed(signature).None? {
      var i :| 0 <= i < |tokens| && Refused(tokens[i]);
      assert Refused(Split(signature, ' ')[i]);
    }
  }

  /** In particular a text with an empty piece, as a doubled, leading or trailing space or the empty text leaves, is refused. */
  lemma EmptyPieceRefused(signature: string)
    requires "" in Split(signature, ' ')
    ensures Parsed(signature).None?
  {
    var tokens := Split(signature, ' ');
    var i :| 0 <= i < |tokens| && tokens[i] == "";
    assert Refused(tokens[i]);
    TokensRefused(tokens);
  }

  /** A list of tokens is refused exactly when one of them is. */
  lemma {:induction false} TokensRefused(tokens: seq<string>)
    ensures ParseTokens(tokens).None? <==> exists i :: 0 <= i < |tokens| && Refused(tokens[i])
  {
    if |tokens| > 0 {
      var init, last := tokens[..|tokens| - 1], tokens[|tokens| - 1];
      assert init + [last] == tokens;
      ParseTokensSnoc(init, last);
      TokensRefused(init);
      if ParseTokens(init).None? {
        var i :| 0 <= i < |init| && Refused(init[i]);
        assert tokens[i] == init[i];
      } else if Refused(last) {
        assert tokens[|tokens| - 1] == last;
      } else {
        forall i | 0 <= i < |tokens|
          ensures !Refused(tokens[i])
        {
          if i < |init| {
            assert tokens[i] == init[i];
          }
        }
      }
    }
  }

  /** A signature that is well formed: as many mask characters as bytes, each 'x' or '?', and a 0 under each '?'. */
  predicate WellFormed(p: Parse) {
    && |p.bytes| == |p.mask|
    && forall i :: 0 <= i < |p.mask| ==> (p.mask[i] == '?' && p.bytes[i] == 0) || p.mask[i] == 'x'
  }

  /** The tokens that write a signature out: "??" under each '?', two upper-case digits for each other byte. */
  function SignatureTokens(p: Parse): (r: seq<string>)
    requires |p.bytes| == |p.mask|
  {
    seq(|p.bytes|, i requires 0 <= i < |p.bytes| => TokenOf(p.bytes[i], p.mask[i] == '?'))
  }

  /** A well-formed signature of one byte or more, written out with single spaces, is parsed back to itself. */
  lemma ParseSignatureText(p: Parse)
    requires WellFormed(p) && |p.bytes| >= 1
    ensures Parsed(Format(SignatureTokens(p))) == Some(p)
  {
    var tokens := SignatureTokens(p);
    FormatTokens(tokens);
    forall i | 0 <= i < |tokens|
      ensures TokenEntry(tokens[i]) == Some((p.bytes[i], p.mask[i]))
    {
      if p.mask[i] != '?' {
        ConvertUpperPair(p.bytes[i]);
      }
    }
    ParseTokensOf(tokens, p);
  }

  /**
   * `ParseSignature(signature)`: cut the text at single spaces and append each piece's
   * byte to a list and its mask character to a builder; `ok` is false where
   * `Convert.ToByte` throws.
   */
  method ParseSignature(signature: string) returns (ok: bool, signatureBytes: array<byte>, mask: string)
    ensures fresh(signatureBytes)
    ensures ok <==> Parsed(signature).Some?
    ensures ok ==> Parsed(signature) == Some(Parse(signatureBytes[..], mask))
  {
    var bytes: seq<byte> := [];
    mask := "";
    var tokens := Split(signature, ' ');
    for i := 0 to |tokens|
      invariant ParseTokens(tokens[..i]) == Some(Parse(bytes, mask))
    {
      assert tokens[..i + 1] == tokens[..i] + [tokens[i]];
      ParseTokensSnoc(tokens[..i], tokens[i]);
      if IsWildcard(tokens[i]) {
        bytes := bytes + [0];
        mask := mask + ['?'];
      } else {
        var b := ConvertToByte(tokens[i]);
        if b.None? {
          PrefixRefused(tokens, i + 1);
          signatureBytes := new byte[0];
          return false, signatureBytes, "";
        }
        bytes := bytes + [b.value];
        mask := mask + ['x'];
      }
    }
    assert tokens[..|tokens|] == tokens;
    signatureBytes := new byte[|bytes|](k requires 0 <= k < |bytes| => bytes[k]);
    assert signatureBytes[..] == bytes;
    ok := true;
  }

  /** Once a prefix of the tokens is refused, so are all of them. */
  lemma {:induction false} PrefixRefused(tokens: seq<string>, n: nat)
    requires n <= |tokens| && ParseTokens(tokens[..n]).None?
    ensures ParseTokens(tokens).None?
  {
    if n < |tokens| {
      assert tokens[..|tokens| - 1][..n] == tokens[..n];
      PrefixRefused(tokens[..|tokens| - 1], n);
    } else {
      assert tokens[..n] == tokens;
    }
  }

  // ---- Agreement with MemoryUtils ----

  /** A text whose pieces between single spaces are all words has those pieces as its tokens. */
  lemma WordsAreTokens(signature: string)
    requires forall i :: 0 <= i < |Split(signature, ' ')| ==> IsWord(Split(signature, ' ')[i])
    ensures Tokens(signature) == Split(signature, ' ')
  {
    JoinSplit(signature, ' ');
    TokensOfJoin(Split(signature, ' '));
  }

  /** A mask of 0s and 1s and a mask text of 'x' and '?' that mark the same positions. */
  predicate SameMarks(m: seq<byte>, c: string) {
    && |m| == |c|
    && forall j :: 0 <= j < |c| ==> ((m[j] == 1 && c[j] == 'x') || (m[j] == 0 && c[j] == '?'))
  }

  /** Tokens this parser accepts are accepted by `MemoryUtils`' loop too, with the same bytes and the same marks. */
  lemma {:induction false} TokensAsMemoryUtils(tokens: seq<string>)
    requires ParseTokens(tokens).Some?
    ensures MemoryUtils.ParseTokens(tokens).Some?
    ensures MemoryUtils.ParseTokens(tokens).value.pattern == ParseTokens(tokens).value.bytes
    ensures SameMarks(MemoryUtils.ParseTokens(tokens).value.mask, ParseTokens(tokens).value.mask)
  {
    if |tokens| > 0 {
      var init, last := tokens[..|tokens| - 1], tokens[|tokens| - 1];
      assert init + [last] == tokens;
      ParseTokensSnoc(init, last);
      MemoryUtils.ParseTokensSnoc(init, last);
      TokensAsMemoryUtils(init);
      var p, m := ParseTokens(init).value, MemoryUtils.ParseTokens(init).value;
      var c, b := TokenEntry(last).value.1, MemoryUtils.TokenEntry(last).value.1;
      assert (b == 1 && c == 'x') || (b == 0 && c == '?');
      assert SameMarks(m.mask + [b], p.mask + [c]);
    }
  }

  /**
   * A text `ParseSignature` accepts is accepted by `MemoryUtils.ParseSignature` too, with
   * the same bytes, and with a mask that has 1 exactly where this one has 'x' and 0
   * exactly where it has '?'.
   */
  lemma ParsedAsMemoryUtils(signature: string)
    requires Parsed(signature).Some?
    ensures MemoryUtils.Parsed(signature).Some?
    ensures MemoryUtils.Parsed(signature).value.pattern == Parsed(signature).value.bytes
    ensures SameMarks(MemoryUtils.Parsed(signature).value.mask, Parsed(signature).value.mask)
  {
    var tokens := Split(signature, ' ');
    ParseTokensEntries(tokens);
    forall i | 0 <= i < |tokens|
      ensures IsWord(tokens[i])
    {
      assert TokenEntry(tokens[i]).Some?;
      if !IsWildcard(tokens[i]) {
        HexTokenIsWord(tokens[i]);
      }
    }
    WordsAreTokens(signature);
    TokensAsMemoryUtils(tokens);
  }

  /** A token `Convert.ToByte` accepts has neither a space nor a tab in it. */
  lemma HexTokenIsWord(token: string)
    requires ConvertToByte(token).Some?
    ensures IsWord(token)
  {
    var digits := DotNetDigits(token);
    forall k | 0 <= k < |token|
      ensures !IsBlank(token[k])
    {
      var d := |token| - |digits|;
      if k >= d {
        assert token[k] == digits[k - d];
      }
    }
  }

  /** Both predicates of a match agree on a signature written both ways. */
  lemma MatchesAgree(buffer: seq<byte>, p: Parse, m: MemoryUtils.Signature, i: int)
    requires m.pattern == p.bytes && |p.mask| == |p.bytes| && SameMarks(m.mask, p.mask)
    requires 0 <= i && i + |p.bytes| <= |buffer|
    ensures MemoryUtils.MatchesAt(buffer, m.pattern, m.mask, i) <==> MatchesAt(buffer, p.bytes, p.mask, i)
  {
  }

  /**
   * Both scanners find the same first match for a signature this parser accepts: the
   * offset `FindPatternInBuffer` returns is the one `MemoryUtils.ScanMemoryBlock` returns
   * for the `MemoryUtils` parse of the same text.
   */
  lemma ScannersAgree(signature: string, buffer: seq<byte>, bytesRead: int, r: int)
    requires Parsed(signature).Some? && bytesRead <= |buffer|
    ensures MemoryUtils.Parsed(signature).Some?
    ensures FirstMatch(buffer, bytesRead, Parsed(signature).value.bytes, Parsed(signature).value.mask, r) <==>
            MemoryUtils.FirstMatch(buffer, bytesRead, MemoryUtils.Parsed(signature).value.pattern,
                                   MemoryUtils.Parsed(signature).value.mask, r)
  {
    ParsedAsMemoryUtils(signature);
    var p := Parsed(signature).value;
    var m := MemoryUtils.Parsed(signature).value;
    forall i | 0 <= i <= bytesRead - |p.bytes|
      ensures MemoryUtils.MatchesAt(buffer, m.pattern, m.mask, i) <==> MatchesAt(buffer, p.bytes, p.mask, i)
    {
      MatchesAgree(buffer, p, m, i);
    }
  }
}
