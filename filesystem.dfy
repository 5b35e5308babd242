/**
 * The `Filesystem` object: the archive's source directory, its header tree and header
 * size, and the running offset at which the next packed file's bytes go. Its methods
 * change the header in place; each is proved to leave the object in the state the
 * corresponding function of `FilesystemSpec` or `FilesystemQueries` describes.
 */
module Filesystems {
  import opened Wrappers
  import opened Bytes
  import opened Text
  import opened Paths
  import opened Integrity
  import opened Entries
  import opened Tree
  import opened FilesystemSpec
  import opened FilesystemQueries

  class Filesystem {
    /** `Path.GetFullPath(src)`: the caller passes the full path. */
    const src: string
    var header: Entry
    var headerSize: int
    var offset: nat

    /** A new archive: an empty root directory, no header size yet, offset zero. */
    constructor(fullSrc: string)
      ensures src == fullSrc && header == EmptyDirectory() && headerSize == 0 && offset == 0
    {
      src := fullSrc;
      header := EmptyDirectory();
      headerSize := 0;
      offset := 0;
    }

    function GetRootPath(): string {
      src
    }

    function GetHeader(): Entry
      reads this
    {
      header
    }

    function GetHeaderSize(): int
      reads this
    {
      headerSize
    }

    /** `SetHeader`: the header read from an archive replaces the tree; the offset stays. */
    method SetHeader(h: Entry, size: int)
      modifies this
      ensures header == h && headerSize == size && offset == old(offset)
    {
      header := h;
      headerSize := size;
    }

    /**
     * `SearchNodeFromDirectory(p)`: split the normalized path and walk it from the root,
     * creating each missing directory, answering the path of the node reached. It throws
     * only before it has created anything, so on an error the header is as it was.
     */
    method SearchNodeFromDirectory(p: string) returns (r: Result<seq<string>, FsError>)
      modifies this
      ensures r.Ok? ==> Tree.SearchNodeFromDirectory(old(header), p) == Ok(Located(header, r.value))
      ensures r.Err? ==> Tree.SearchNodeFromDirectory(old(header), p) == Err(r.error) && header == old(header)
      ensures headerSize == old(headerSize) && offset == old(offset)
    {
      var normalized := NormalizeSeparators(p);
      var dirs := Split(normalized, SEP);
      var json: seq<string> := [];
      var i := 0;
      while i < |dirs|
        invariant 0 <= i <= |dirs|
        invariant At(header, json).Some?
        invariant WalkFrom(old(header), [], dirs) == WalkFrom(header, json, dirs[i..])
        invariant WalkFrom(header, json, dirs[i..]).Err? ==> header == old(header)
        invariant headerSize == old(headerSize) && offset == old(offset)
      {
        var dir := dirs[i];
        assert dirs[i..][1..] == dirs[i + 1..];
        if dir == "." || dir == "" {
          WalkSkip(header, json, dirs[i..]);
        } else {
          var node := At(header, json).value;
          if !IsDirectory(node) {
            r := Err(UnexpectedDirectoryState);
            return;
          }
          WalkStep(header, json, dirs[i..]);
          AtAppend(header, json, [dir]);
          if Lookup(node.files.children, dir).None? {
            header := Replace(header, json, node.(files := Table(Put(node.files.children, dir, EmptyDirectory()))));
            WalkFresh(header, json + [dir], dirs[i + 1..]);
          }
          json := json + [dir];
        }
        i := i + 1;
      }
      assert dirs[i..] == [];
      r := Ok(json);
    }

    /**
     * `SearchNodeFromPath` on a path already made relative to `src`: the root for the
     * empty path; otherwise the directory part's child named by the last part, which gets
     * a child table and a blank entry if it has none.
     */
    method SearchNodeFromPath(rel: string) returns (r: Result<seq<string>, FsError>)
      modifies this
      ensures r.Ok? ==> FilesystemSpec.SearchNodeFromPath(old(header), rel) == Ok(Located(header, r.value))
      ensures r.Err? ==> FilesystemSpec.SearchNodeFromPath(old(header), rel) == Err(r.error) && header == old(header)
      ensures headerSize == old(headerSize) && offset == old(offset)
    {
      if rel == "" {
        return Ok([]);
      }
      var name := GetFileName(rel);
      var dir := SearchNodeFromDirectory(GetDirectoryName(rel));
      if dir.Err? {
        return Err(dir.error);
      }
      var at := dir.value;
      WalkEnds(old(header), [], Segments(GetDirectoryName(rel)));
      var node := At(header, at).value;
      if node.files.NoTable? {
        node := node.(files := Table([]));
      }
      if Lookup(node.files.children, name).None? {
        node := node.(files := Table(Put(node.files.children, name, Blank())));
      }
      assert node == WithChild(At(header, at).value, name);
      header := Replace(header, at, node);
      r := Ok(at + [name]);
    }

    /** `InsertDirectory`: the node the search arrives at becomes a directory marked `unpack`. */
    method InsertDirectory(rel: string, unpack: bool) returns (error: Option<FsError>)
      modifies this
      ensures error.None? ==> FilesystemSpec.InsertDirectory(old(header), rel, unpack) == Ok(header)
      ensures error.Some? ==> FilesystemSpec.InsertDirectory(old(header), rel, unpack) == Err(error.value) && header == old(header)
      ensures headerSize == old(headerSize) && offset == old(offset)
    {
      var found := SearchNodeFromPath(rel);
      if found.Err? {
        return Some(found.error);
      }
      var at := found.value;
      var node := At(header, at).value;
      if node.files.NoTable? {
        node := node.(files := Table([]));
      }
      node := node.(unpacked := Some(unpack));
      header := Replace(header, at, node);
      error := None;
    }

    /**
     * `InsertFile`: search the file's directory and the file, check the stat, then either
     * mark the file unpacked or give it the running offset and advance the offset by its
     * size. The integrity record is computed from the file's bytes as `GetFileIntegrity`
     * computes it.
     */
    method InsertFile(relDir: string, relPath: string, shouldUnpack: bool, stat: Stat,
                      file: seq<byte>, sha: seq<byte> -> seq<byte>, readAt: nat -> nat, windows: bool)
      returns (error: Option<FsError>)
      requires ReadsWell(file, readAt)
      modifies this
      ensures FilesystemSpec.InsertFile(old(header), old(offset), relDir, relPath, shouldUnpack, stat,
                                        IntegrityOf(file, sha, readAt), windows) == Inserted(header, offset, error)
      ensures headerSize == old(headerSize)
    {
      var dirFound := SearchNodeFromPath(relDir);
      if dirFound.Err? {
        return Some(dirFound.error);
      }
      ghost var afterDir := header;
      var found := SearchNodeFromPath(relPath);
      if found.Err? {
        return Some(found.error);
      }
      SearchNodeFromPathShape(afterDir, relPath);
      error := RecordFile(dirFound.value, found.value, shouldUnpack, stat, file, sha, readAt, windows);
    }

    /** The part of `InsertFile` after both searches: the stat check and the node's new fields. */
    method RecordFile(dirAt: seq<string>, at: seq<string>, shouldUnpack: bool, stat: Stat,
                      file: seq<byte>, sha: seq<byte> -> seq<byte>, readAt: nat -> nat, windows: bool)
      returns (error: Option<FsError>)
      requires ReadsWell(file, readAt) && At(header, dirAt).Some? && At(header, at).Some?
      modifies this
      ensures Record(old(header), old(offset), dirAt, at, shouldUnpack, stat, IntegrityOf(file, sha, readAt), windows)
        == Inserted(header, offset, error)
      ensures headerSize == old(headerSize)
    {
      var size: nat;
      match stat {
        case OtherStat =>
          return Some(NotAFile);
        case FileStat(length, _) =>
          size := length;
      }
      var dirNode := At(header, dirAt).value;
      var node := At(header, at).value;
      if shouldUnpack || dirNode.unpacked == Some(true) {
        var integrity := GetFileIntegrity(file, sha, readAt);
        node := node.(size := Some(size), unpacked := Some(true), integrity := Some(integrity));
        header := Replace(header, at, node);
        return None;
      }
      if size > UINT32_MAX {
        return Some(TooLarge);
      }
      var integrity := GetFileIntegrity(file, sha, readAt);
      node := node.(size := Some(size), offset := Some(Decimal(offset)), integrity := Some(integrity));
      if !windows && stat.hidden {
        node := node.(executable := Some(true));
      }
      header := Replace(header, at, node);
      offset := offset + size;
      error := None;
    }

    /**
     * `GetNode(p, followLinks)`: the directory walk, then the link, the child or the node
     * itself; each link followed uses one unit of `fuel`.
     */
    method GetNode(p: string, followLinks: bool, fuel: nat) returns (r: Result<Option<seq<string>>, FsError>)
      modifies this
      ensures FilesystemQueries.GetNode(old(header), p, followLinks, fuel) == Outcome(header, r)
      ensures headerSize == old(headerSize) && offset == old(offset)
      decreases fuel, 1
    {
      ghost var before := header;
      var normalized := NormalizeSeparators(p);
      GetNodeWalks(header, p, followLinks, fuel);
      var dir := SearchNodeFromDirectory(GetDirectoryName(normalized));
      if dir.Err? {
        return Err(dir.error);
      }
      r := NodeFrom(dir.value, GetFileName(normalized), followLinks, fuel);
    }

    /** The second half of `GetNode`, once the walk has reached the directory part at `at`. */
    method NodeFrom(at: seq<string>, name: string, followLinks: bool, fuel: nat)
      returns (r: Result<Option<seq<string>>, FsError>)
      modifies this
      requires At(header, at).Some?
      ensures NodeAt(old(header), at, name, followLinks, fuel) == Outcome(header, r)
      ensures headerSize == old(headerSize) && offset == old(offset)
      decreases fuel, 0
    {
      var node := At(header, at).value;
      if IsLink(node) && followLinks && fuel > 0 {
        r := FollowNodeLink(at, name, followLinks, fuel);
        return;
      }
      NodeAtEnds(header, at, name, followLinks, fuel);
      if IsLink(node) && followLinks {
        r := Err(LinkDepth);
      } else if name != "" {
        if IsDirectory(node) && Lookup(node.files.children, name).Some? {
          r := Ok(Some(at + [name]));
        } else {
          r := Ok(None);
        }
      } else {
        r := Ok(Some(at));
      }
    }

    /** `GetNode` on a directory part that is a link: the walk starts over from the link's target. */
    method FollowNodeLink(at: seq<string>, name: string, followLinks: bool, fuel: nat)
      returns (r: Result<Option<seq<string>>, FsError>)
      modifies this
      requires At(header, at).Some? && IsLink(At(header, at).value) && followLinks && fuel > 0
      ensures NodeAt(old(header), at, name, followLinks, fuel) == Outcome(header, r)
      ensures headerSize == old(headerSize) && offset == old(offset)
      decreases fuel - 1, 2
    {
      var target, f := Combine(At(header, at).value.link.value, name), fuel - 1;
      NodeAtLink(header, at, name, followLinks, fuel, f);
      r := GetNode(target, followLinks, f);
    }

    /** `GetFile(p, followLinks)`: `GetNode`, throwing when nothing is found, following a found link. */
    method GetFile(p: string, followLinks: bool, fuel: nat) returns (r: Result<seq<string>, FsError>)
      modifies this
      ensures FilesystemQueries.GetFile(old(header), p, followLinks, fuel) == Outcome(header, r)
      ensures headerSize == old(headerSize) && offset == old(offset)
      decreases fuel, 1
    {
      ghost var before := header;
      var info := GetNode(p, followLinks, fuel);
      if info.Err? {
        GetFileFails(before, p, followLinks, fuel);
        return Err(info.error);
      }
      if info.value.None? {
        GetFileNothing(before, p, followLinks, fuel);
        return Err(NotFound);
      }
      GetFileFound(before, p, followLinks, fuel, header, info.value.value);
      r := FollowFile(info.value.value, followLinks, fuel);
    }

    /** The end of `GetFile` once `GetNode` found the node at `at`: follow it if it is a link. */
    method FollowFile(at: seq<string>, followLinks: bool, fuel: nat) returns (r: Result<seq<string>, FsError>)
      requires At(header, at).Some?
      modifies this
      ensures FileAt(old(header), at, followLinks, fuel) == Outcome(header, r)
      ensures headerSize == old(headerSize) && offset == old(offset)
      decreases fuel, 0
    {
      var node := At(header, at).value;
      if IsLink(node) && followLinks {
        if fuel == 0 {
          return Err(LinkDepth);
        }
        var f := fuel - 1;
        r := GetFile(node.link.value, followLinks, f);
        return;
      }
      r := Ok(at);
    }

    /** `ListFiles(isPack)`: every path in the header, each directory's children in order. */
    method ListFiles(isPack: bool) returns (files: seq<string>)
      ensures files == FilesystemQueries.ListFiles(header, isPack)
    {
      files := FillFilesFromMetadata([], "/", header, isPack);
    }
  }

  /**
   * `FillFilesFromMetadata(basePath, metadata)`: append, child by child, the child's line
   * and then everything below the child.
   */
  method FillFilesFromMetadata(files: seq<string>, basePath: string, metadata: Entry, isPack: bool)
    returns (out: seq<string>)
    ensures out == files + Listing(basePath, metadata, isPack)
    decreases metadata
  {
    out := files;
    if !IsDirectory(metadata) {
      return;
    }
    var children := metadata.files.children;
    var i := 0;
    while i < |children|
      invariant 0 <= i <= |children|
      invariant out + ListFrom(basePath, metadata, i, isPack) == files + ListFrom(basePath, metadata, 0, isPack)
    {
      var entry := children[i];
      assert entry.node < metadata by {
        assert entry in metadata.files.children;
      }
      var fullPath := ListingPath(basePath, entry.name);
      ListFromStep(basePath, metadata, i, isPack, out);
      out := out + [ListLine(fullPath, entry.node, isPack)];
      out := FillFilesFromMetadata(out, fullPath, entry.node, isPack);
      i := i + 1;
    }
    ListFromEnd(basePath, metadata, isPack, out);
  }
}
