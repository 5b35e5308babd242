/**
 * `IntegrityHelper`: the integrity record of a file, a SHA-256 digest of each block of at
 * most 4 MiB read from it and one of the whole file. SHA-256 itself is a parameter (`sha`),
 * taken as an arbitrary function from bytes to digest bytes; the file is its bytes, and
 * the stream's reads are a parameter saying how many bytes each read returns.
 */
module Integrity {
  import opened Wrappers
  import opened Bytes
  import opened Text

  const ALGORITHM: string := "SHA256"
  const BLOCK_SIZE: int := 4 * 1024 * 1024

  /** `FileIntegrity` as the header serialises it. */
  datatype FileIntegrity = FileIntegrity(algorithm: string, hash: string, blockSize: int, blocks: seq<string>)

  /**
   * What `FileStream.Read(buffer, 0, BLOCK_SIZE)` may return at each position of the file:
   * at least one byte while any remain, never more than the block or the rest of the file.
   */
  ghost predicate ReadsWell(file: seq<byte>, readAt: nat -> nat) {
    forall pos: nat :: ReadFits(file, readAt, pos)
  }

  /** The read at `pos`, while bytes remain, returns at least one of them and stays within the block and the file. */
  ghost predicate ReadFits(file: seq<byte>, readAt: nat -> nat, pos: nat) {
    pos < |file| ==> 0 < readAt(pos) <= BLOCK_SIZE && pos + readAt(pos) <= |file|
  }

  /** The blocks the read loop copies out, from `pos` on. */
  ghost function Chunks(file: seq<byte>, readAt: nat -> nat, pos: nat): seq<seq<byte>>
    requires ReadsWell(file, readAt) && pos <= |file|
    decreases |file| - pos
  {
    if pos == |file| then []
    else
      assert ReadFits(file, readAt, pos);
      [file[pos..pos + readAt(pos)]] + Chunks(file, readAt, pos + readAt(pos))
  }

  ghost function Concat(chunks: seq<seq<byte>>): seq<byte> {
    if |chunks| == 0 then [] else chunks[0] + Concat(chunks[1..])
  }

  /** `HashBlock`: the lower-case hexadecimal digest of one block. */
  function HashBlock(sha: seq<byte> -> seq<byte>, block: seq<byte>): string {
    HexDigest(sha(block))
  }

  ghost function BlockHashes(sha: seq<byte> -> seq<byte>, chunks: seq<seq<byte>>): (r: seq<string>)
    ensures |r| == |chunks|
  {
    if |chunks| == 0 then [] else [HashBlock(sha, chunks[0])] + BlockHashes(sha, chunks[1..])
  }

  lemma {:induction false} BlockHashesAt(sha: seq<byte> -> seq<byte>, chunks: seq<seq<byte>>)
    ensures forall i :: 0 <= i < |chunks| ==> BlockHashes(sha, chunks)[i] == HashBlock(sha, chunks[i])
  {
    if |chunks| > 0 {
      BlockHashesAt(sha, chunks[1..]);
    }
  }

  /** The record `GetFileIntegrity` returns. */
  ghost function IntegrityOf(file: seq<byte>, sha: seq<byte> -> seq<byte>, readAt: nat -> nat): FileIntegrity
    requires ReadsWell(file, readAt)
  {
    FileIntegrity(ALGORITHM, HexDigest(sha(file)), BLOCK_SIZE, BlockHashes(sha, Chunks(file, readAt, 0)))
  }

  /**
   * `GetFileIntegrity`: read blocks until a read returns nothing, hash each block, and feed
   * each into the whole-file hash, whose input is kept as `fed` and digested at the end.
   */
  method GetFileIntegrity(file: seq<byte>, sha: seq<byte> -> seq<byte>, readAt: nat -> nat) returns (r: FileIntegrity)
    requires ReadsWell(file, readAt)
    ensures r == IntegrityOf(file, sha, readAt)
  {
    var blockHashes: seq<string> := [];
    var fed: seq<byte> := [];
    var position: nat := 0;
    while true
      invariant position <= |file|
      invariant fed == file[..position]
      invariant blockHashes + BlockHashes(sha, Chunks(file, readAt, position)) == BlockHashes(sha, Chunks(file, readAt, 0))
      decreases |file| - position
    {
      assert ReadFits(file, readAt, position);
      var bytesRead := if position < |file| then readAt(position) else 0;
      if bytesRead == 0 {
        break;
      }
      var block := file[position..position + bytesRead];
      HashesStep(file, sha, readAt, position, blockHashes);
      PrefixGrows(file, position, bytesRead);
      blockHashes := blockHashes + [HashBlock(sha, block)];
      fed := fed + block;
      position := position + bytesRead;
    }
    assert position == |file|;
    HashesDone(file, sha, readAt, blockHashes);
    assert fed == file;
    r := FileIntegrity(ALGORITHM, HexDigest(sha(fed)), BLOCK_SIZE, blockHashes);
  }

  /** One turn of the read loop keeps the digests collected so far and the ones still to come. */
  lemma HashesStep(file: seq<byte>, sha: seq<byte> -> seq<byte>, readAt: nat -> nat, pos: nat, hashes: seq<string>)
    requires ReadsWell(file, readAt) && pos < |file| && ReadFits(file, readAt, pos)
    requires hashes + BlockHashes(sha, Chunks(file, readAt, pos)) == BlockHashes(sha, Chunks(file, readAt, 0))
    ensures (hashes + [HashBlock(sha, file[pos..pos + readAt(pos)])]) + BlockHashes(sha, Chunks(file, readAt, pos + readAt(pos)))
         == BlockHashes(sha, Chunks(file, readAt, 0))
  {
    NextBlock(file, sha, readAt, pos);
  }

  lemma HashesDone(file: seq<byte>, sha: seq<byte> -> seq<byte>, readAt: nat -> nat, hashes: seq<string>)
    requires ReadsWell(file, readAt)
    requires hashes + BlockHashes(sha, Chunks(file, readAt, |file|)) == BlockHashes(sha, Chunks(file, readAt, 0))
    ensures hashes == BlockHashes(sha, Chunks(file, readAt, 0))
  {
    assert Chunks(file, readAt, |file|) == [];
    assert hashes + [] == hashes;
  }

  lemma PrefixGrows(file: seq<byte>, pos: nat, n: nat)
    requires pos + n <= |file|
    ensures file[..pos + n] == file[..pos] + file[pos..pos + n]
  {
  }

  lemma NextBlock(file: seq<byte>, sha: seq<byte> -> seq<byte>, readAt: nat -> nat, pos: nat)
    requires ReadsWell(file, readAt) && pos < |file| && ReadFits(file, readAt, pos)
    ensures BlockHashes(sha, Chunks(file, readAt, pos))
      == [HashBlock(sha, file[pos..pos + readAt(pos)])] + BlockHashes(sha, Chunks(file, readAt, pos + readAt(pos)))
  {
    var cs := Chunks(file, readAt, pos);
    assert cs[1..] == Chunks(file, readAt, pos + readAt(pos));
  }

  /** The blocks are non-empty, none is longer than `BLOCK_SIZE`, and they tile the file. */
  lemma {:induction false} ChunksTile(file: seq<byte>, readAt: nat -> nat, pos: nat)
    requires ReadsWell(file, readAt) && pos <= |file|
    ensures Concat(Chunks(file, readAt, pos)) == file[pos..]
    ensures forall i :: 0 <= i < |Chunks(file, readAt, pos)| ==>
      0 < |Chunks(file, readAt, pos)[i]| <= BLOCK_SIZE
    decreases |file| - pos
  {
    if pos < |file| {
      assert ReadFits(file, readAt, pos);
      var n := readAt(pos);
      ChunksTile(file, readAt, pos + n);
      var cs := Chunks(file, readAt, pos);
      assert cs[1..] == Chunks(file, readAt, pos + n);
      assert file[pos..] == file[pos..pos + n] + file[pos + n..];
    }
  }

  /** An empty file has no blocks, and its hash is that of the empty input. */
  lemma EmptyFileNoBlocks(sha: seq<byte> -> seq<byte>, readAt: nat -> nat)
    ensures ReadsWell([], readAt)
    ensures IntegrityOf([], sha, readAt).blocks == []
    ensures IntegrityOf([], sha, readAt).hash == HexDigest(sha([]))
  {
  }

  /**
   * The record has one block digest per block, in order; the algorithm and block size
   * are the constants; the digests are lower-case hexadecimal, two digits per byte.
   */
  lemma IntegrityRecord(file: seq<byte>, sha: seq<byte> -> seq<byte>, readAt: nat -> nat)
    requires ReadsWell(file, readAt)
    ensures var r := IntegrityOf(file, sha, readAt);
      var cs := Chunks(file, readAt, 0);
      && r.algorithm == "SHA256" && r.blockSize == 4194304
      && Concat(cs) == file
      && |r.blocks| == |cs|
      && (forall i :: 0 <= i < |cs| ==> r.blocks[i] == HexDigest(sha(cs[i])) && 0 < |cs[i]| <= BLOCK_SIZE)
      && FromLowerHex(r.hash) == Some(sha(file))
  {
    ChunksTile(file, readAt, 0);
    BlockHashesAt(sha, Chunks(file, readAt, 0));
    assert file[0..] == file;
    HexDigestRoundTrip(sha(file));
  }

  /** What a `FileStream` on a regular file returns: the block, or the rest of the file. */
  function WholeReads(file: seq<byte>): nat -> nat {
    pos => if pos + BLOCK_SIZE <= |file| then BLOCK_SIZE else if pos < |file| then |file| - pos else 0
  }

  lemma WholeReadsWell(file: seq<byte>)
    ensures ReadsWell(file, WholeReads(file))
  {
  }
}
