/**
 * `memoryScanner.js`'s search and signature parser. JavaScript throws nothing here: an
 * index past the end of a buffer or of the mask reads `undefined`, which differs from
 * every byte and from "x", and a token `parseInt` cannot read is NaN, which
 * `Buffer.from` stores as 0.
 */
module MemoryScanner {
  import opened Wrappers
  import opened Bytes
  import opened Text
  import opened SignatureSyntax
  import PatternScanner

  /** `buffer[k]`: the byte at `k`, or `undefined` outside the buffer. */
  function ByteAt(buffer: seq<byte>, k: int): (r: Option<byte>)
    ensures r.Some? <==> 0 <= k < |buffer|
    ensures r.Some? ==> r.value == buffer[k]
  {
    if 0 <= k < |buffer| then Some(buffer[k]) else None
  }

  /** `mask[i]`: the character at `i`, or `undefined` past the end. */
  function CharAt(mask: string, i: int): (r: Option<char>)
    ensures r.Some? <==> 0 <= i < |mask|
    ensures r.Some? ==> r.value == mask[i]
  {
    if 0 <= i < |mask| then Some(mask[i]) else None
  }

  /**
   * The signature is found at `offset`: every position whose mask character is "x" holds
   * the signature's byte; a position past the end of the mask is not compared, and one
   * outside the buffer never matches.
   */
  predicate MatchesAt(buffer: seq<byte>, signature: seq<byte>, mask: string, offset: int) {
    forall i :: 0 <= i < |signature| && CharAt(mask, i) == Some('x') ==> ByteAt(buffer, offset + i) == Some(signature[i])
  }

  /**
   * `r` is the first offset between 0 and `bytesRead - signature.length` at which the
   * signature is found, or -1 when it is found at none of them.
   */
  predicate FirstMatch(buffer: seq<byte>, bytesRead: int, signature: seq<byte>, mask: string, r: int) {
    || (r == -1 && forall i :: 0 <= i <= bytesRead - |signature| ==> !MatchesAt(buffer, signature, mask, i))
    || (&& 0 <= r <= bytesRead - |signature| && MatchesAt(buffer, signature, mask, r)
        && forall i :: 0 <= i < r ==> !MatchesAt(buffer, signature, mask, i))
  }

  /** `isMatch(buffer, signature, mask, offset)`: false at the first position marked "x" whose byte differs. */
  method IsMatch(buffer: array<byte>, signature: array<byte>, mask: string, offset: int) returns (r: bool)
    ensures r <==> MatchesAt(buffer[..], signature[..], mask, offset)
  {
    for i := 0 to signature.Length
      invariant forall k :: 0 <= k < i && CharAt(mask, k) == Some('x') ==> ByteAt(buffer[..], offset + k) == Some(signature[k])
    {
      if CharAt(mask, i) == Some('x') && ByteAt(buffer[..], offset + i) != Some(signature[i]) {
        return false;
      }
    }
    return true;
  }

  /** `findPatternInBuffer(buffer, bytesRead, signature, mask)`: the first offset at which the signature is found, or -1. */
  method FindPatternInBuffer(buffer: array<byte>, bytesRead: int, signature: array<byte>, mask: string) returns (r: int)
    ensures FirstMatch(buffer[..], bytesRead, signature[..], mask, r)
    ensures bytesRead < signature.Length ==> r == -1
  {
    var i := 0;
    while i <= bytesRead - signature.Length
      invariant 0 <= i
      invariant forall k :: 0 <= k < i ==> !MatchesAt(buffer[..], signature[..], mask, k)
    {
      var found := IsMatch(buffer, signature, mask, i);
      if found {
        return i;
      }
      i := i + 1;
    }
    return -1;
  }

  // ---- Signatures ----

  /** The buffer and the mask text `parseSignature` returns. */
  datatype Parse = Parse(bytes: seq<byte>, mask: string)

  /** The number `parseSignature` pushes for a token: 0 for a wildcard, otherwise `parseInt(token, 16)`. */
  function TokenNumber(token: string): Option<int> {
    if IsWildcard(token) then Some(0) else ParseIntHex(token)
  }

  /** The mask character for a token: "?" for a wildcard, otherwise "x". */
  function TokenMark(token: string): char {
    if IsWildcard(token) then '?' else 'x'
  }

  /** `Buffer.from(numbers)`: one byte per number. */
  function BufferFrom(numbers: seq<Option<int>>): (r: seq<byte>)
    ensures |r| == |numbers| && forall i :: 0 <= i < |numbers| ==> r[i] == ToUint8(numbers[i])
  {
    seq(|numbers|, i requires 0 <= i < |numbers| => ToUint8(numbers[i]))
  }

  /**
   * The signature a text describes: for each piece between single spaces, empty pieces
   * included, the byte of its number and its mask character.
   */
  function Parsed(signature: string): (r: Parse)
    ensures |r.bytes| == |r.mask| == |Split(signature, ' ')|
  {
    var tokens := Split(signature, ' ');
    Parse(BufferFrom(seq(|tokens|, i requires 0 <= i < |tokens| => TokenNumber(tokens[i]))),
          seq(|tokens|, i requires 0 <= i < |tokens| => TokenMark(tokens[i])))
  }

  /**
   * `parseSignature(signature)`: cut the text at single spaces, push each piece's number
   * and append its mask character, then make a buffer of the numbers.
   */
  method ParseSignature(signature: string) returns (buffer: array<byte>, mask: string)
    ensures fresh(buffer)
    ensures Parsed(signature) == Parse(buffer[..], mask)
  {
    var signatureBytes: seq<Option<int>> := [];
    mask := "";
    var tokens := Split(signature, ' ');
    for i := 0 to |tokens|
      invariant |signatureBytes| == |mask| == i
      invariant forall k :: 0 <= k < i ==> signatureBytes[k] == TokenNumber(tokens[k]) && mask[k] == TokenMark(tokens[k])
    {
      if IsWildcard(tokens[i]) {
        signatureBytes := signatureBytes + [Some(0)];
        mask := mask + ['?'];
      } else {
        signatureBytes := signatureBytes + [ParseIntHex(tokens[i])];
        mask := mask + ['x'];
      }
    }
    buffer := new byte[|signatureBytes|](k requires 0 <= k < |signatureBytes| => ToUint8(signatureBytes[k]));
    assert buffer[..] == BufferFrom(signatureBytes);
    ghost var numbers := seq(|tokens|, i requires 0 <= i < |tokens| => TokenNumber(tokens[i]));
    assert numbers == signatureBytes;
    assert Parsed(signature).mask == mask;
  }

  /**
   * A piece that is neither a wildcard nor hexadecimal, such as the empty piece a doubled,
   * leading or trailing space leaves, is not refused: it becomes a byte 0 marked "x",
   * which the search then requires to be present.
   */
  lemma UnreadableTokenRequiresZero(signature: string, i: int)
    requires 0 <= i < |Split(signature, ' ')|
    requires !IsWildcard(Split(signature, ' ')[i]) && ParseIntHex(Split(signature, ' ')[i]).None?
    ensures Parsed(signature).bytes[i] == 0 && Parsed(signature).mask[i] == 'x'
  {
  }

  /** A signature written out with single spaces, every '?' over a 0 byte and every other mark 'x', is parsed back to itself. */
  lemma ParseSignatureText(p: Parse)
    requires |p.bytes| == |p.mask| >= 1
    requires forall i :: 0 <= i < |p.mask| ==> (p.mask[i] == '?' && p.bytes[i] == 0) || p.mask[i] == 'x'
    ensures Parsed(Format(seq(|p.bytes|, i requires 0 <= i < |p.bytes| => TokenOf(p.bytes[i], p.mask[i] == '?')))) == p
  {
    var tokens := seq(|p.bytes|, i requires 0 <= i < |p.bytes| => TokenOf(p.bytes[i], p.mask[i] == '?'));
    FormatTokens(tokens);
    var q := Parsed(Format(tokens));
    forall i | 0 <= i < |tokens|
      ensures q.bytes[i] == p.bytes[i] && q.mask[i] == p.mask[i]
    {
      if p.mask[i] != '?' {
        ParseIntUpperPair(p.bytes[i]);
      }
    }
  }

  // ---- Agreement with PatternScanner ----

  /** A text the C# `PatternScanner.ParseSignature` accepts gives the same bytes and mask here. */
  lemma ParsedAsPatternScanner(signature: string)
    requires PatternScanner.Parsed(signature).Some?
    ensures Parsed(signature) == Parse(PatternScanner.Parsed(signature).value.bytes, PatternScanner.Parsed(signature).value.mask)
  {
    var tokens := Split(signature, ' ');
    PatternScanner.ParseTokensEntries(tokens);
    var p := PatternScanner.Parsed(signature).value;
    var q := Parsed(signature);
    forall i | 0 <= i < |tokens|
      ensures q.bytes[i] == p.bytes[i] && q.mask[i] == p.mask[i]
    {
      assert PatternScanner.TokenEntry(tokens[i]) == Some((p.bytes[i], p.mask[i]));
      if !IsWildcard(tokens[i]) {
        ParseIntAgrees(tokens[i]);
      }
    }
  }

  /** With a mask that covers the signature, both languages' matches are the same. */
  lemma MatchesAgree(buffer: seq<byte>, signature: seq<byte>, mask: string, offset: int)
    requires |signature| <= |mask|
    ensures MatchesAt(buffer, signature, mask, offset) <==> PatternScanner.MatchesAt(buffer, signature, mask, offset)
  {
    if MatchesAt(buffer, signature, mask, offset) {
      forall i | 0 <= i < |signature| && mask[i] == 'x'
        ensures 0 <= offset + i < |buffer| && buffer[offset + i] == signature[i]
      {
        assert CharAt(mask, i) == Some('x');
      }
    }
    if PatternScanner.MatchesAt(buffer, signature, mask, offset) {
      forall i | 0 <= i < |signature| && CharAt(mask, i) == Some('x')
        ensures ByteAt(buffer, offset + i) == Some(signature[i])
      {
        assert mask[i] == 'x';
      }
    }
  }

  /**
   * Both scanners find the same first match for a signature the C# parser accepts: the
   * JavaScript parse of the text has the same bytes and mask, and the search over them
   * returns the offset `PatternScanner.FindPatternInBuffer` returns.
   */
  lemma ScannersAgree(signature: string, buffer: seq<byte>, bytesRead: int, r: int)
    requires PatternScanner.Parsed(signature).Some?
    ensures FirstMatch(buffer, bytesRead, Parsed(signature).bytes, Parsed(signature).mask, r) <==>
            PatternScanner.FirstMatch(buffer, bytesRead, PatternScanner.Parsed(signature).value.bytes,
                                      PatternScanner.Parsed(signature).value.mask, r)
  {
    ParsedAsPatternScanner(signature);
    var p := PatternScanner.Parsed(signature).value;
    forall i | 0 <= i <= bytesRead - |p.bytes|
      ensures MatchesAt(buffer, p.bytes, p.mask, i) <==> PatternScanner.MatchesAt(buffer, p.bytes, p.mask, i)
    {
      MatchesAgree(buffer, p.bytes, p.mask, i);
    }
  }
}
