/**
 * `Filesystem`'s operations on the header tree, as functions of the tree. Looking a
 * path up creates what is missing on the way, so each lookup returns the new tree
 * with the path of the node it arrived at.
 */
module FilesystemSpec {
  import opened Wrappers
  import opened Bytes
  import opened Text
  import opened Paths
  import opened Integrity
  import opened Entries
  import opened Tree

  const UINT32_MAX: int := 0xFFFF_FFFF

  /** `node.Files = node.Files ?? new Dictionary<...>()`. */
  function Open(d: Entry): (r: Entry)
    ensures IsDirectory(r) && Extends(d, r)
    ensures d.files.Table? ==> r == d
    ensures d.files.NoTable? ==> r.files == Table([])
  {
    if d.files.NoTable? then
      OpenExtends(d);
      d.(files := Table([]))
    else
      d
  }

  /**
   * The last step of `SearchNodeFromPath`: the node gets a child table if it has none,
   * and `name` a blank entry if it is missing.
   */
  function WithChild(d: Entry, name: string): (r: Entry)
    ensures IsDirectory(r) && At(r, [name]).Some? && Extends(d, r)
    ensures At(d, [name]).Some? ==> r == d
    ensures At(d, [name]).None? ==> At(r, [name]) == Some(Blank())
  {
    var o := Open(d);
    if Lookup(o.files.children, name).Some? then
      o
    else
      var r := o.(files := Table(Put(o.files.children, name, Blank())));
      AddChildExtends(o, name, Blank());
      ExtendsTrans(d, o, r);
      PutLookup(o.files.children, name, Blank(), name);
      r
  }

  /**
   * `SearchNodeFromPath` on a path already made relative to the source directory: the
   * root for the empty path; otherwise walk to the directory part, creating directories,
   * and return its child named by the last part, created blank if missing.
   */
  function SearchNodeFromPath(root: Entry, rel: string): (r: Result<Located, FsError>)
    ensures r.Ok? ==> At(r.value.root, r.value.path).Some?
    ensures r.Err? ==> r.error == UnexpectedDirectoryState
  {
    if rel == "" then Ok(Located(root, []))
    else
      var segs := Segments(GetDirectoryName(rel));
      match WalkFrom(root, [], segs)
      case Err(e) => Err(e)
      case Ok(w) =>
        WalkEnds(root, [], segs);
        var x := WithChild(At(w.root, w.path).value, GetFileName(rel));
        ReplaceBelow(w.root, w.path, x, [GetFileName(rel)]);
        Ok(Located(Replace(w.root, w.path, x), w.path + [GetFileName(rel)]))
  }

  /** The directories a relative path names before its last part. */
  function DirectoryPart(rel: string): seq<string> {
    Effective(Segments(GetDirectoryName(rel)))
  }

  /**
   * The search arrives at the directory part followed by the last name, and only adds to
   * the tree.
   */
  lemma SearchNodeFromPathShape(root: Entry, rel: string)
    requires SearchNodeFromPath(root, rel).Ok?
    ensures rel == "" ==> SearchNodeFromPath(root, rel) == Ok(Located(root, []))
    ensures rel != "" ==> SearchNodeFromPath(root, rel).value.path == DirectoryPart(rel) + [GetFileName(rel)]
    ensures Extends(root, SearchNodeFromPath(root, rel).value.root)
  {
    if rel != "" {
      var segs := Segments(GetDirectoryName(rel));
      var w := WalkFrom(root, [], segs).value;
      WalkEnds(root, [], segs);
      WalkExtends(root, [], segs);
      var x := WithChild(At(w.root, w.path).value, GetFileName(rel));
      ReplaceExtends(w.root, w.path, x);
      ExtendsTrans(root, w.root, Replace(w.root, w.path, x));
      assert [] + DirectoryPart(rel) == DirectoryPart(rel);
    }
  }

  /** The search throws exactly when an existing non-directory stands on the directory part. */
  lemma SearchNodeFromPathFails(root: Entry, rel: string)
    ensures SearchNodeFromPath(root, rel).Err? <==> rel != "" && Blocked(root, [], DirectoryPart(rel))
  {
    if rel != "" {
      WalkFails(root, [], Segments(GetDirectoryName(rel)));
    }
  }

  /** A node that is already there is found, and the tree does not change. */
  lemma SearchNodeFromPathExisting(root: Entry, rel: string)
    requires rel != "" && At(root, DirectoryPart(rel) + [GetFileName(rel)]).Some?
    ensures SearchNodeFromPath(root, rel) == Ok(Located(root, DirectoryPart(rel) + [GetFileName(rel)]))
  {
    var segs := Segments(GetDirectoryName(rel));
    var dir := DirectoryPart(rel);
    AtAppend(root, dir, [GetFileName(rel)]);
    assert [] + dir == dir;
    WalkExisting(root, [], segs);
    ReplaceSame(root, dir);
  }

  /** A node that is not there yet is created blank. */
  lemma SearchNodeFromPathCreates(root: Entry, rel: string)
    requires rel != "" && SearchNodeFromPath(root, rel).Ok?
    requires At(root, DirectoryPart(rel) + [GetFileName(rel)]).None?
    ensures At(SearchNodeFromPath(root, rel).value.root, SearchNodeFromPath(root, rel).value.path) == Some(Blank())
  {
    var segs := Segments(GetDirectoryName(rel));
    var dir := DirectoryPart(rel);
    var name := GetFileName(rel);
    var w := WalkFrom(root, [], segs).value;
    assert [] + dir == dir;
    WalkEnds(root, [], segs);
    if At(root, dir).Some? {
      WalkExisting(root, [], segs);
    } else {
      WalkCreates(root, [], segs);
      AtAppend(w.root, dir, [name]);
      assert Lookup([], name).None?;
    }
    AtAppend(w.root, dir, [name]);
    var x := WithChild(At(w.root, dir).value, name);
    ReplaceBelow(w.root, dir, x, [name]);
  }

  /** `InsertDirectory`: the node the search arrives at becomes a directory marked `unpack`. */
  function InsertDirectory(root: Entry, rel: string, unpack: bool): Result<Entry, FsError> {
    var loc :- SearchNodeFromPath(root, rel);
    Ok(Replace(loc.root, loc.path, Open(At(loc.root, loc.path).value).(unpacked := Some(unpack))))
  }

  /**
   * After `InsertDirectory` the node is a directory whose `unpacked` is the flag, holding
   * the children it held; a directory it had to create is empty.
   */
  lemma InsertDirectoryMarks(root: Entry, rel: string, unpack: bool)
    requires SearchNodeFromPath(root, rel).Ok?
    ensures InsertDirectory(root, rel, unpack).Ok?
    ensures var loc := SearchNodeFromPath(root, rel).value;
      var before := At(loc.root, loc.path).value;
      var after := At(InsertDirectory(root, rel, unpack).value, loc.path);
      && after.Some? && IsDirectory(after.value)
      && after.value.unpacked == Some(unpack)
      && ShouldSerializeUnpacked(after.value) == unpack
      && (IsDirectory(before) ==> after.value.files == before.files)
      && (before == Blank() ==> after == Some(EmptyDirectory().(unpacked := Some(unpack))))
  {
    var loc := SearchNodeFromPath(root, rel).value;
    ReplaceAt(loc.root, loc.path, Open(At(loc.root, loc.path).value).(unpacked := Some(unpack)));
  }

  /** `InsertDirectory` throws exactly when the search does, leaving the tree as it was. */
  lemma InsertDirectoryFails(root: Entry, rel: string, unpack: bool)
    ensures InsertDirectory(root, rel, unpack).Err? <==> rel != "" && Blocked(root, [], DirectoryPart(rel))
  {
    SearchNodeFromPathFails(root, rel);
  }

  /** What `CrawledFileType.Stat` holds: a `FileInfo` (its length and hidden attribute) or not. */
  datatype Stat = FileStat(length: nat, hidden: bool) | OtherStat

  /** The tree and the running offset after `InsertFile`, and the exception it threw, if any. */
  datatype Inserted = Inserted(root: Entry, offset: nat, error: Option<FsError>)

  /**
   * `InsertFile`: both searches run before anything else, so the directory and the file
   * node exist even when the stat check then throws. A file to unpack (or one in an
   * unpacked directory) records its size and integrity and takes no space in the
   * archive; any other file records the running offset as decimal text, and the
   * offset advances by its size.
   */
  function InsertFile(root: Entry, offset: nat, relDir: string, relPath: string, shouldUnpack: bool,
                      stat: Stat, integrity: FileIntegrity, windows: bool): Inserted
  {
    match SearchNodeFromPath(root, relDir)
    case Err(e) => Inserted(root, offset, Some(e))
    case Ok(d) =>
      match SearchNodeFromPath(d.root, relPath)
      case Err(e) => Inserted(d.root, offset, Some(e))
      case Ok(f) =>
        SearchNodeFromPathShape(d.root, relPath);
        Record(f.root, offset, d.path, f.path, shouldUnpack, stat, integrity, windows)
  }

  /** The part of `InsertFile` after the searches, with the directory at `dir` and the file at `path`. */
  function Record(root: Entry, offset: nat, dir: seq<string>, path: seq<string>, shouldUnpack: bool,
                  stat: Stat, integrity: FileIntegrity, windows: bool): Inserted
    requires At(root, dir).Some? && At(root, path).Some?
  {
    var dirNode := At(root, dir).value;
    var node := At(root, path).value;
    if stat.OtherStat? then
      Inserted(root, offset, Some(NotAFile))
    else if shouldUnpack || dirNode.unpacked == Some(true) then
      var node' := node.(size := Some(stat.length), unpacked := Some(true), integrity := Some(integrity));
      Inserted(Replace(root, path, node'), offset, None)
    else if stat.length > UINT32_MAX then
      Inserted(root, offset, Some(TooLarge))
    else
      var executable := if !windows && stat.hidden then Some(true) else node.executable;
      var node' := node.(size := Some(stat.length), offset := Some(Decimal(offset)),
                         integrity := Some(integrity), executable := executable);
      Inserted(Replace(root, path, node'), offset + stat.length, None)
  }

  /** Whether `InsertFile` puts the file's bytes in the archive. */
  predicate Packs(root: Entry, relDir: string, relPath: string, shouldUnpack: bool)
    requires SearchNodeFromPath(root, relDir).Ok?
    requires SearchNodeFromPath(SearchNodeFromPath(root, relDir).value.root, relPath).Ok?
  {
    var d := SearchNodeFromPath(root, relDir).value;
    var f := SearchNodeFromPath(d.root, relPath).value;
    SearchNodeFromPathShape(d.root, relPath);
    !shouldUnpack && At(f.root, d.path).value.unpacked != Some(true)
  }

  /**
   * A packed insertion records the running offset as text that parses back to it, with
   * the size and integrity, and advances the offset by exactly the size. The node is
   * marked executable only for a hidden file off Windows and keeps its other fields;
   * every node off its path is as the two searches, which only add, left it.
   */
  lemma InsertFilePacked(root: Entry, offset: nat, relDir: string, relPath: string, shouldUnpack: bool,
                         length: nat, hidden: bool, integrity: FileIntegrity, windows: bool)
    requires SearchNodeFromPath(root, relDir).Ok?
    requires SearchNodeFromPath(SearchNodeFromPath(root, relDir).value.root, relPath).Ok?
    requires Packs(root, relDir, relPath, shouldUnpack) && length <= UINT32_MAX && offset < TWO63
    ensures var r := InsertFile(root, offset, relDir, relPath, shouldUnpack, FileStat(length, hidden), integrity, windows);
      var searched := SearchNodeFromPath(SearchNodeFromPath(root, relDir).value.root, relPath).value;
      var path := searched.path;
      && Extends(root, searched.root)
      && r.error.None? && r.offset == offset + length
      && At(searched.root, path).Some? && At(r.root, path).Some?
      && var before := At(searched.root, path).value;
      && At(r.root, path).value.size == Some(length)
      && At(r.root, path).value.offset.Some?
      && ParseLong(At(r.root, path).value.offset.value) == Some(offset)
      && At(r.root, path).value.integrity == Some(integrity)
      && At(r.root, path).value.executable == (if !windows && hidden then Some(true) else before.executable)
      && At(r.root, path).value.files == before.files
      && At(r.root, path).value.unpacked == before.unpacked
      && At(r.root, path).value.link == before.link
      && (forall q :: Diverge(path, q) ==> At(r.root, q) == At(searched.root, q))
  {
    var d := SearchNodeFromPath(root, relDir).value;
    var f := SearchNodeFromPath(d.root, relPath).value;
    SearchNodeFromPathShape(root, relDir);
    SearchNodeFromPathShape(d.root, relPath);
    ExtendsTrans(root, d.root, f.root);
    var node := At(f.root, f.path).value;
    var executable := if !windows && hidden then Some(true) else node.executable;
    var node' := node.(size := Some(length), offset := Some(Decimal(offset)),
                       integrity := Some(integrity), executable := executable);
    ReplaceAt(f.root, f.path, node');
    forall q | Diverge(f.path, q)
      ensures At(Replace(f.root, f.path, node'), q) == At(f.root, q)
    {
      ReplaceOff(f.root, f.path, node', q);
    }
    ParseDecimal(offset);
  }

  /**
   * An unpacked insertion marks the node unpacked with the size and integrity, keeps its
   * other fields and leaves the offset where it was; every node off its path is as the
   * two searches, which only add, left it.
   */
  lemma InsertFileUnpacked(root: Entry, offset: nat, relDir: string, relPath: string, shouldUnpack: bool,
                           length: nat, hidden: bool, integrity: FileIntegrity, windows: bool)
    requires SearchNodeFromPath(root, relDir).Ok?
    requires SearchNodeFromPath(SearchNodeFromPath(root, relDir).value.root, relPath).Ok?
    requires !Packs(root, relDir, relPath, shouldUnpack)
    ensures var r := InsertFile(root, offset, relDir, relPath, shouldUnpack, FileStat(length, hidden), integrity, windows);
      var searched := SearchNodeFromPath(SearchNodeFromPath(root, relDir).value.root, relPath).value;
      var path := searched.path;
      && Extends(root, searched.root)
      && r.error.None? && r.offset == offset
      && At(searched.root, path).Some? && At(r.root, path).Some?
      && var before := At(searched.root, path).value;
      && At(r.root, path).value.size == Some(length)
      && At(r.root, path).value.unpacked == Some(true)
      && At(r.root, path).value.integrity == Some(integrity)
      && At(r.root, path).value.executable == before.executable
      && At(r.root, path).value.offset == before.offset
      && At(r.root, path).value.files == before.files
      && At(r.root, path).value.link == before.link
      && (forall q :: Diverge(path, q) ==> At(r.root, q) == At(searched.root, q))
  {
    var d := SearchNodeFromPath(root, relDir).value;
    var f := SearchNodeFromPath(d.root, relPath).value;
    SearchNodeFromPathShape(root, relDir);
    SearchNodeFromPathShape(d.root, relPath);
    ExtendsTrans(root, d.root, f.root);
    var node := At(f.root, f.path).value;
    var node' := node.(size := Some(length), unpacked := Some(true), integrity := Some(integrity));
    ReplaceAt(f.root, f.path, node');
    forall q | Diverge(f.path, q)
      ensures At(Replace(f.root, f.path, node'), q) == At(f.root, q)
    {
      ReplaceOff(f.root, f.path, node', q);
    }
  }

  /**
   * `InsertFile` throws when a search does, when the stat is not a file's, or when a
   * packed file is larger than `UINT32_MAX`; the offset moves only when it succeeds.
   */
  lemma InsertFileFails(root: Entry, offset: nat, relDir: string, relPath: string, shouldUnpack: bool,
                        stat: Stat, integrity: FileIntegrity, windows: bool)
    ensures var r := InsertFile(root, offset, relDir, relPath, shouldUnpack, stat, integrity, windows);
      && (r.error.Some? ==> r.offset == offset)
      && (r.error.Some? <==>
           || SearchNodeFromPath(root, relDir).Err?
           || SearchNodeFromPath(SearchNodeFromPath(root, relDir).value.root, relPath).Err?
           || stat.OtherStat?
           || (Packs(root, relDir, relPath, shouldUnpack) && stat.length > UINT32_MAX))
      && (r.error == Some(TooLarge) <==>
           && SearchNodeFromPath(root, relDir).Ok?
           && SearchNodeFromPath(SearchNodeFromPath(root, relDir).value.root, relPath).Ok?
           && stat.FileStat? && Packs(root, relDir, relPath, shouldUnpack) && stat.length > UINT32_MAX)
  {
  }
}
