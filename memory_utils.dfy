/**
 * `MemoryUtils.ScanMemoryBlock` and `MemoryUtils.ParseSignature`: a signature is a
 * pattern of bytes with a mask of the same length whose 0 bytes are wildcards, and a
 * scan finds the first offset of a block where every other byte of the pattern is
 * present.
 */
module MemoryUtils {
  import opened Wrappers
  import opened Bytes
  import opened SignatureSyntax

  /** The pattern is found at `i`: it fits in the buffer there, and every position whose mask byte is not 0 holds the pattern's byte. */
  predicate MatchesAt(buffer: seq<byte>, pattern: seq<byte>, mask: seq<byte>, i: int) {
    && 0 <= i && i + |pattern| <= |buffer| && |pattern| <= |mask|
    && forall j :: 0 <= j < |pattern| ==> mask[j] == 0 || buffer[i + j] == pattern[j]
  }

  /**
   * `r` is the first offset between 0 and `bufferLength - |pattern|` at which the
   * pattern is found, or -1 when it is found at none of them.
   */
  predicate FirstMatch(buffer: seq<byte>, bufferLength: int, pattern: seq<byte>, mask: seq<byte>, r: int) {
    || (r == -1 && forall i :: 0 <= i <= bufferLength - |pattern| ==> !MatchesAt(buffer, pattern, mask, i))
    || (&& 0 <= r <= bufferLength - |pattern| && MatchesAt(buffer, pattern, mask, r)
        && forall i :: 0 <= i < r ==> !MatchesAt(buffer, pattern, mask, i))
  }

  /** Some of the first `n` mask bytes is 1, the value the scan looks for to start comparing. */
  predicate Checks(mask: seq<byte>, n: int) {
    exists j :: 0 <= j < n && j < |mask| && mask[j] == 1
  }

  /** Every mask byte is 0 (a wildcard) or 1 (a byte to compare). */
  predicate Binary(mask: seq<byte>) {
    forall j :: 0 <= j < |mask| ==> mask[j] == 0 || mask[j] == 1
  }

  /** There is only one first match. */
  lemma FirstMatchUnique(buffer: seq<byte>, bufferLength: int, pattern: seq<byte>, mask: seq<byte>, r1: int, r2: int)
    requires FirstMatch(buffer, bufferLength, pattern, mask, r1)
    requires FirstMatch(buffer, bufferLength, pattern, mask, r2)
    ensures r1 == r2
  {
  }

  /** A mask of wildcards only matches at offset 0 as soon as the pattern fits. */
  lemma WildcardsMatchFirst(buffer: seq<byte>, bufferLength: int, pattern: seq<byte>, mask: seq<byte>)
    requires |pattern| <= bufferLength <= |buffer| && |pattern| <= |mask|
    requires forall j :: 0 <= j < |pattern| ==> mask[j] == 0
    ensures FirstMatch(buffer, bufferLength, pattern, mask, 0)
  {
    assert MatchesAt(buffer, pattern, mask, 0);
  }

  /**
   * `ScanMemoryBlock(buffer, bufferLength, pattern, mask)`: -1 when the pattern is longer
   * than the block; 0 when no mask byte is 1; otherwise the first offset at which the
   * pattern is found, or -1. With a mask of 0s and 1s, as `ParseSignature` builds, the
   * answer is always the first match. The buffer must hold the block and the mask must
   * cover the pattern, or the indexing throws.
   */
  method ScanMemoryBlock(buffer: array<byte>, bufferLength: int, pattern: array<byte>, mask: array<byte>) returns (r: int)
    requires bufferLength <= buffer.Length && pattern.Length <= mask.Length
    ensures bufferLength < pattern.Length ==> r == -1
    ensures Checks(mask[..], pattern.Length) ==> FirstMatch(buffer[..], bufferLength, pattern[..], mask[..], r)
    ensures !Checks(mask[..], pattern.Length) && bufferLength >= pattern.Length ==> r == 0
    ensures Binary(mask[..pattern.Length]) ==> FirstMatch(buffer[..], bufferLength, pattern[..], mask[..], r)
  {
    var patternLength := pattern.Length;
    if bufferLength < patternLength {
      return -1;
    }
    var searchEnd := bufferLength - patternLength;
    var firstValidIndex := -1;
    var k := 0;
    while k < patternLength
      invariant 0 <= k <= patternLength
      invariant forall j :: 0 <= j < k ==> mask[j] != 1
    {
      if mask[k] == 1 {
        firstValidIndex := k;
        break;
      }
      k := k + 1;
    }
    if firstValidIndex == -1 {
      if Binary(mask[..patternLength]) {
        forall j | 0 <= j < patternLength
          ensures mask[j] == 0
        {
          assert mask[..patternLength][j] == mask[j];
        }
        WildcardsMatchFirst(buffer[..], bufferLength, pattern[..], mask[..]);
      }
      return 0;
    }
    var firstByte := pattern[firstValidIndex];
    for i := 0 to searchEnd + 1
      invariant forall i' :: 0 <= i' < i ==> !MatchesAt(buffer[..], pattern[..], mask[..], i')
    {
      if buffer[i + firstValidIndex] != firstByte {
        continue;
      }
      var found := true;
      for j := 0 to patternLength
        invariant found
        invariant forall j' :: 0 <= j' < j ==> mask[j'] == 0 || buffer[i + j'] == pattern[j']
      {
        if mask[j] == 0 || buffer[i + j] == pattern[j] {
          continue;
        }
        found := false;
        break;
      }
      if found {
        return i;
      }
    }
    return -1;
  }

  // ---- Signatures ----

  /** A pattern and its mask. */
  datatype Signature = Signature(pattern: seq<byte>, mask: seq<byte>)

  /** The bytes one token adds to the pattern and to the mask: (0, 0) for a wildcard, (the byte, 1) for a byte written in hexadecimal. */
  function TokenEntry(token: string): (r: Option<(byte, byte)>)
    ensures IsWildcard(token) ==> r == Some((0, 0))
    ensures r.None? <==> Refused(token)
    ensures !IsWildcard(token) && r.Some? ==> r.value == (ConvertToByte(token).value, 1)
  {
    if IsWildcard(token) then Some((0, 0))
    else
      match ConvertToByte(token)
      case None => None
      case Some(b) => Some((b, 1))
  }

  /** The signature of a list of tokens, or nothing as soon as one of them is not a byte (`Convert.ToByte` throws). */
  function ParseTokens(parts: seq<string>): (r: Option<Signature>)
    ensures r.Some? ==> |r.value.pattern| == |r.value.mask| == |parts|
  {
    if |parts| == 0 then Some(Signature([], []))
    else
      match ParseTokens(parts[..|parts| - 1])
      case None => None
      case Some(sig) =>
        match TokenEntry(parts[|parts| - 1])
        case None => None
        case Some(e) => Some(Signature(sig.pattern + [e.0], sig.mask + [e.1]))
  }

  /** The signature a text describes: its tokens between spaces and tabs, empty ones removed. */
  function Parsed(signatureStr: string): Option<Signature> {
    ParseTokens(Tokens(signatureStr))
  }

  /** Each token gives its own entry of the signature, and the text is refused exactly when one token is not a byte. */
  lemma {:induction false} ParseTokensEntries(parts: seq<string>)
    ensures ParseTokens(parts).Some? <==> forall i :: 0 <= i < |parts| ==> TokenEntry(parts[i]).Some?
    ensures ParseTokens(parts).Some? ==>
      forall i :: 0 <= i < |parts| ==>
        TokenEntry(parts[i]) == Some((ParseTokens(parts).value.pattern[i], ParseTokens(parts).value.mask[i]))
  {
    if |parts| > 0 {
      var init := parts[..|parts| - 1];
      ParseTokensEntries(init);
      ParseTokensSnoc(init, parts[|parts| - 1]);
      assert init + [parts[|parts| - 1]] == parts;
    }
  }

  /** Tokens whose entries are those of a signature parse to that signature. */
  lemma {:induction false} ParseTokensOf(parts: seq<string>, sig: Signature)
    requires |sig.pattern| == |sig.mask| == |parts|
    requires forall i :: 0 <= i < |parts| ==> TokenEntry(parts[i]) == Some((sig.pattern[i], sig.mask[i]))
    ensures ParseTokens(parts) == Some(sig)
  {
    if |parts| > 0 {
      var n := |parts| - 1;
      var init := Signature(sig.pattern[..n], sig.mask[..n]);
      ParseTokensOf(parts[..n], init);
      ParseTokensSnoc(parts[..n], parts[n]);
      assert parts[..n] + [parts[n]] == parts;
      assert sig.pattern[..n] + [sig.pattern[n]] == sig.pattern;
      assert sig.mask[..n] + [sig.mask[n]] == sig.mask;
    }
  }

  /** One more token adds its entry at the end of the signature, or refuses the text. */
  lemma ParseTokensSnoc(parts: seq<string>, t: string)
    ensures ParseTokens(parts + [t]) ==
      if ParseTokens(parts).Some? && TokenEntry(t).Some? then
        Some(Signature(ParseTokens(parts).value.pattern + [TokenEntry(t).value.0],
                       ParseTokens(parts).value.mask + [TokenEntry(t).value.1]))
      else None
  {
    assert (parts + [t])[..|parts|] == parts;
  }

  /**
   * What `ParseSignature` builds: a pattern and a mask of the same length, a mask of 0s
   * and 1s, and a 0 in the pattern wherever the mask has a wildcard.
   */
  predicate WellFormed(sig: Signature) {
    && |sig.pattern| == |sig.mask|
    && forall i :: 0 <= i < |sig.mask| ==> (sig.mask[i] == 0 && sig.pattern[i] == 0) || sig.mask[i] == 1
  }

  /** A parsed signature has one entry per token, is well formed, and marks exactly the wildcard tokens. */
  lemma ParsedWellFormed(signatureStr: string)
    requires Parsed(signatureStr).Some?
    ensures WellFormed(Parsed(signatureStr).value)
    ensures Binary(Parsed(signatureStr).value.mask)
    ensures |Parsed(signatureStr).value.mask| == |Tokens(signatureStr)|
    ensures forall i :: 0 <= i < |Tokens(signatureStr)| ==>
              (Parsed(signatureStr).value.mask[i] == 0 <==> IsWildcard(Tokens(signatureStr)[i]))
  {
    ParseTokensEntries(Tokens(signatureStr));
  }

  /** A text is refused exactly when one of its tokens is neither a wildcard nor a hexadecimal byte. */
  lemma ParsedRefuses(signatureStr: string)
    ensures Parsed(signatureStr).None? <==> exists i :: 0 <= i < |Tokens(signatureStr)| && Refused(Tokens(signatureStr)[i])
  {
    TokensRefused(Tokens(signatureStr));
  }

  /** A list of tokens is refused exactly when one of them is. */
  lemma {:induction false} TokensRefused(tokens: seq<string>)
    ensures ParseTokens(tokens).None? <==> exists i :: 0 <= i < |tokens| && Refused(tokens[i])
  {
    if |tokens| > 0 {
      var init, last := tokens[..|tokens| - 1], tokens[|tokens| - 1];
      assert init + [last] == tokens;
      ParseTokensSnoc(init, last);
      TokensRefused(init);
      if ParseTokens(init).None? {
        var i :| 0 <= i < |init| && Refused(init[i]);
        assert tokens[i] == init[i];
      } else if Refused(last) {
        assert tokens[|tokens| - 1] == last;
      } else {
        forall i | 0 <= i < |tokens|
          ensures !Refused(tokens[i])
        {
          if i < |init| {
            assert tokens[i] == init[i];
          }
        }
      }
    }
  }

  /** The tokens that write a signature out: "??" for each wildcard, two upper-case digits for each other byte. */
  function SignatureTokens(sig: Signature): (r: seq<string>)
    requires |sig.pattern| == |sig.mask|
  {
    seq(|sig.pattern|, i requires 0 <= i < |sig.pattern| => TokenOf(sig.pattern[i], sig.mask[i] == 0))
  }

  /** A signature written out as text. */
  function SignatureText(sig: Signature): string
    requires |sig.pattern| == |sig.mask|
  {
    Format(SignatureTokens(sig))
  }

  /** A well-formed signature written out is parsed back to itself. */
  lemma ParseSignatureText(sig: Signature)
    requires WellFormed(sig)
    ensures Parsed(SignatureText(sig)) == Some(sig)
  {
    var tokens := SignatureTokens(sig);
    FormatTokens(tokens);
    forall i | 0 <= i < |tokens|
      ensures TokenEntry(tokens[i]) == Some((sig.pattern[i], sig.mask[i]))
    {
      if sig.mask[i] != 0 {
        ConvertUpperPair(sig.pattern[i]);
      }
    }
    ParseTokensOf(tokens, sig);
  }

  /**
   * `ParseSignature(signatureStr, out pattern, out mask)`: cut the text at spaces and
   * tabs, drop the empty pieces, and fill both arrays token by token; `ok` is false where
   * `Convert.ToByte` throws.
   */
  method ParseSignature(signatureStr: string) returns (ok: bool, pattern: array<byte>, mask: array<byte>)
    ensures fresh(pattern) && fresh(mask)
    ensures ok <==> Parsed(signatureStr).Some?
    ensures ok ==> Parsed(signatureStr) == Some(Signature(pattern[..], mask[..]))
  {
    var parts := Tokens(signatureStr);
    var length := |parts|;
    pattern := new byte[length];
    mask := new byte[length];
    ok := FillEntries(parts, pattern, mask);
  }

  /** The loop of `ParseSignature`: entry `i` of both arrays from token `i`, stopping at the first token that is not a byte. */
  method FillEntries(parts: seq<string>, pattern: array<byte>, mask: array<byte>) returns (ok: bool)
    requires pattern.Length == mask.Length == |parts| && pattern != mask
    modifies pattern, mask
    ensures ok <==> ParseTokens(parts).Some?
    ensures ok ==> ParseTokens(parts) == Some(Signature(pattern[..], mask[..]))
  {
    for i := 0 to |parts|
      invariant ParseTokens(parts[..i]) == Some(Signature(pattern[..i], mask[..i]))
    {
      var entry: (byte, byte);
      if IsWildcard(parts[i]) {
        entry := (0, 0);
      } else {
        var b := ConvertToByte(parts[i]);
        if b.None? {
          PrefixStep(parts, i);
          PrefixRefused(parts, i + 1);
          return false;
        }
        entry := (b.value, 1);
      }
      PrefixStep(parts, i);
      ghost var before := Signature(pattern[..i], mask[..i]);
      pattern[i] := entry.0;
      mask[i] := entry.1;
      Extended(pattern[..], before.pattern, i);
      Extended(mask[..], before.mask, i);
    }
    assert parts[..|parts|] == parts;
    assert pattern[..|parts|] == pattern[..];
    assert mask[..|parts|] == mask[..];
    ok := true;
  }

  /** An array whose first `i` elements were kept and whose element `i` was written. */
  lemma Extended(a: seq<byte>, before: seq<byte>, i: nat)
    requires i < |a| && |before| == i && forall k :: 0 <= k < i ==> a[k] == before[k]
    ensures a[..i + 1] == before + [a[i]]
  {
  }

  /** The first `i + 1` tokens are the first `i` and token `i`. */
  lemma PrefixStep(parts: seq<string>, i: nat)
    requires i < |parts|
    ensures ParseTokens(parts[..i + 1]) ==
      if ParseTokens(parts[..i]).Some? && TokenEntry(parts[i]).Some? then
        Some(Signature(ParseTokens(parts[..i]).value.pattern + [TokenEntry(parts[i]).value.0],
                       ParseTokens(parts[..i]).value.mask + [TokenEntry(parts[i]).value.1]))
      else None
  {
    assert parts[..i + 1] == parts[..i] + [parts[i]];
    ParseTokensSnoc(parts[..i], parts[i]);
  }

  /** Once a prefix of the tokens is refused, so are all of them. */
  lemma {:induction false} PrefixRefused(parts: seq<string>, n: nat)
    requires n <= |parts| && ParseTokens(parts[..n]).None?
    ensures ParseTokens(parts).None?
  {
    if n < |parts| {
      assert parts[..|parts| - 1][..n] == parts[..n];
      PrefixRefused(parts[..|parts| - 1], n);
    } else {
      assert parts[..n] == parts;
    }
  }
}
