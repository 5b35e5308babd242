/**
 * What `AsarCreator` does with the crawled paths, as functions: each path is handled in
 * turn against the header tree and the list of files to store, and the first exception
 * ends the run. The outside world (the crawler's type lookup, `GetRelativePath`,
 * `Path.GetFullPath`, the files' bytes, SHA-256 and the JSON serialiser) is a value of
 * type `World`.
 */
module CreatorSpec {
  import opened Wrappers
  import opened Bytes
  import opened Paths
  import opened Integrity
  import opened Entries
  import opened Tree
  import opened FilesystemSpec
  import opened Disk

  /** `FileType`. */
  datatype FileType = File | Directory | Link

  /** `CrawledFileType`: the type and the stat the crawler recorded for a path. */
  datatype Crawled = Crawled(kind: FileType, stat: Stat)

  /** `CreateOptions`: the unpack regex's `IsMatch`, when there is a regex. */
  datatype CreateOptions = CreateOptions(unpack: Option<string -> bool>)

  /** The exceptions the creator can end with. */
  datatype CreateError =
    | NullArgument                      // ArgumentNullException from the constructor
    | NullOptions                       // NullReferenceException on `_options.Unpack`
    | UnknownFileType(filename: string)
    | LinkNotImplemented                // NotImplementedException
    | InsertFailed(fsError: FsError)
    | ArchiveFailed(diskError: DiskError)

  /**
   * The world the creator runs in: `DetermineFileType`, `GetRelativePath(from, to)`,
   * `Path.GetFullPath`, `File.ReadAllBytes` (which the integrity reads and the archive
   * writer see alike), SHA-256, the header's JSON serialiser with its UTF-8 encoding, and
   * whether the platform is Windows.
   */
  datatype World = World(
    determine: string -> Option<Crawled>,
    relative: (string, string) -> string,
    fullPath: string -> string,
    contents: string -> seq<byte>,
    sha: seq<byte> -> seq<byte>,
    serialize: Entry -> seq<byte>,
    windows: bool)

  /** What the creator leaves: the directory it creates for the archive, and the archive. */
  datatype Package = Package(outputDirectory: string, archive: Archive)

  /**
   * `ShouldUnpackPath(relativePath)`: the regex matches; without a regex, no. A null
   * `_options` throws.
   */
  function ShouldUnpackPath(options: Option<CreateOptions>, relativePath: string): (r: Result<bool, CreateError>)
    ensures r.Err? <==> options.None?
    ensures r.Err? ==> r.error == NullOptions
    ensures r.Ok? ==> (r.value <==> options.value.unpack.Some? && options.value.unpack.value(relativePath))
  {
    match options
    case None => Err(NullOptions)
    case Some(o) =>
      match o.unpack
      case None => Ok(false)
      case Some(isMatch) => Ok(isMatch(relativePath))
  }

  /** The type `HandleFile` works with: the recorded one, or `DetermineFileType`'s. */
  function Resolved(metadata: map<string, Crawled>, w: World, filename: string): Option<Crawled> {
    if filename in metadata then Some(metadata[filename]) else w.determine(filename)
  }

  /** The state the loop carries: the filesystem's tree and offset, the files list, `_metadata`. */
  datatype Progress = Progress(root: Entry, offset: nat, files: seq<BasicFileInfo>, metadata: map<string, Crawled>)

  /** The state after handling a path, and the exception it threw, if any. */
  datatype Handled = Handled(state: Progress, error: Option<CreateError>)

  /** The integrity record `InsertFile` computes for a file, reading it block by block. */
  ghost function IntegrityOfFile(w: World, filename: string): FileIntegrity {
    IntegrityOf(w.contents(filename), w.sha, WholeReads(w.contents(filename)))
  }

  /**
   * `HandleFile(filesystem, filename, files)`: fill in a missing type (or throw), then a
   * directory is inserted with `unpack` false, a file is listed with its unpack flag and
   * inserted with the same flag, and a link throws.
   */
  ghost function HandleFile(s: Progress, filename: string, folder: string, src: string,
                            options: Option<CreateOptions>, w: World): Handled
  {
    if filename !in s.metadata && w.determine(filename).None? then
      Handled(s, Some(UnknownFileType(filename)))
    else
      var metadata := if filename in s.metadata then s.metadata else s.metadata[filename := w.determine(filename).value];
      var file := metadata[filename];
      var filled := s.(metadata := metadata);
      match file.kind
      case Directory =>
        (match InsertDirectory(s.root, w.relative(src, filename), false)
         case Err(e) => Handled(filled, Some(InsertFailed(e)))
         case Ok(root) => Handled(filled.(root := root), None))
      case File =>
        (match ShouldUnpackPath(options, w.relative(folder, DirectoryName(filename)))
         case Err(e) => Handled(filled, Some(e))
         case Ok(shouldUnpack) =>
           var ins := InsertFile(s.root, s.offset, w.relative(src, DirectoryName(filename)), w.relative(src, filename),
                                 shouldUnpack, file.stat, IntegrityOfFile(w, filename), w.windows);
           Handled(Progress(ins.root, ins.offset, s.files + [BasicFileInfo(filename, shouldUnpack)], metadata),
                   if ins.error.Some? then Some(InsertFailed(ins.error.value)) else None))
      case Link => Handled(filled, Some(LinkNotImplemented))
  }

  /** The `foreach` of `CreatePackageFromFiles`: the paths in order, stopping at the first exception. */
  ghost function HandleAll(s: Progress, filenames: seq<string>, folder: string, src: string,
                           options: Option<CreateOptions>, w: World): Handled
    decreases |filenames|
  {
    if |filenames| == 0 then Handled(s, None)
    else
      var h := HandleAll(s, filenames[..|filenames| - 1], folder, src, options, w);
      if h.error.Some? then h else HandleFile(h.state, filenames[|filenames| - 1], folder, src, options, w)
  }

  /** The result of a run, with `_metadata` as the run leaves it (it is a field, so it survives a throw). */
  datatype Created = Created(result: Result<Package, CreateError>, metadata: map<string, Crawled>)

  /**
   * `CreatePackageFromFiles`: a filesystem rooted at the full folder path, every path
   * handled, then `InsertsDone`: the archive's directory is created and the archive
   * written from the tree and the files list.
   */
  ghost function CreateFromFiles(folder: string, dest: string, options: Option<CreateOptions>,
                                 filenames: seq<string>, metadata: map<string, Crawled>, w: World): Created
  {
    var src := w.fullPath(folder);
    var h := HandleAll(Progress(EmptyDirectory(), 0, [], metadata), filenames, folder, src, options, w);
    if h.error.Some? then Created(Err(h.error.value), h.state.metadata)
    else Created(InsertsDone(h.state.root, h.state.files, dest, src, w), h.state.metadata)
  }

  /**
   * `InsertsDone`: the directory that is to hold the archive, and the archive written from
   * the tree and the files list.
   */
  function InsertsDone(root: Entry, files: seq<BasicFileInfo>, dest: string, src: string, w: World)
    : (r: Result<Package, CreateError>)
    ensures r.Err? <==> ArchiveOf(w.serialize(root), files, dest, src, w.contents, w.relative).Err?
    ensures r.Err? ==> r.error == ArchiveFailed(ArchiveOf(w.serialize(root), files, dest, src, w.contents, w.relative).error)
    ensures r.Ok? ==> && r.value.outputDirectory == DirectoryName(dest)
                      && r.value.archive == ArchiveOf(w.serialize(root), files, dest, src, w.contents, w.relative).value
  {
    match ArchiveOf(w.serialize(root), files, dest, src, w.contents, w.relative)
    case Err(e) => Err(ArchiveFailed(e))
    case Ok(a) => Ok(Package(DirectoryName(dest), a))
  }

  // ---- What the run guarantees ----

  /** The unpack flag of a listed file, once the options are known to be there. */
  function UnpackFlag(options: Option<CreateOptions>, w: World, folder: string, filename: string): bool {
    ShouldUnpackPath(options, w.relative(folder, DirectoryName(filename))) == Ok(true)
  }

  /** The files list a successful run builds: the paths whose type is `File`, in order, with their flags. */
  function FileList(filenames: seq<string>, metadata: map<string, Crawled>, folder: string,
                    options: Option<CreateOptions>, w: World): seq<BasicFileInfo>
    decreases |filenames|
  {
    if |filenames| == 0 then []
    else
      var f := filenames[|filenames| - 1];
      var init := FileList(filenames[..|filenames| - 1], metadata, folder, options, w);
      match Resolved(metadata, w, f)
      case Some(c) => if c.kind == File then init + [BasicFileInfo(f, UnpackFlag(options, w, folder, f))] else init
      case None => init
  }

  /** `_metadata` after a successful run: every path's type recorded. */
  function Filled(metadata: map<string, Crawled>, filenames: seq<string>, w: World): map<string, Crawled>
    decreases |filenames|
  {
    if |filenames| == 0 then metadata
    else
      var m := Filled(metadata, filenames[..|filenames| - 1], w);
      var f := filenames[|filenames| - 1];
      if f in m || w.determine(f).None? then m else m[f := w.determine(f).value]
  }

  /**
   * How `HandleFile` dispatches: it throws "unknown file type" exactly when the path has
   * no type, `NotImplementedException` exactly for a link, and either way it records
   * the type it looked up.
   */
  lemma HandleFileDispatch(s: Progress, filename: string, folder: string, src: string,
                           options: Option<CreateOptions>, w: World)
    ensures var h := HandleFile(s, filename, folder, src, options, w);
      && (h.error == Some(UnknownFileType(filename)) <==> Resolved(s.metadata, w, filename).None?)
      && (h.error == Some(LinkNotImplemented) <==>
           Resolved(s.metadata, w, filename).Some? && Resolved(s.metadata, w, filename).value.kind == Link)
      && (Resolved(s.metadata, w, filename).Some? ==>
           h.state.metadata == s.metadata[filename := Resolved(s.metadata, w, filename).value])
      && (Resolved(s.metadata, w, filename).None? ==> h.state == s)
  {
    if Resolved(s.metadata, w, filename).Some? && filename in s.metadata {
      assert s.metadata[filename := s.metadata[filename]] == s.metadata;
    }
  }

  /** An exception at the `i`th path ends the run with it: no later path is handled. */
  lemma {:induction false} HandleAllStops(s: Progress, filenames: seq<string>, i: nat, folder: string, src: string,
                                          options: Option<CreateOptions>, w: World)
    requires i < |filenames| && HandleAll(s, filenames[..i + 1], folder, src, options, w).error.Some?
    ensures HandleAll(s, filenames, folder, src, options, w) == HandleAll(s, filenames[..i + 1], folder, src, options, w)
    decreases |filenames|
  {
    if |filenames| > i + 1 {
      var init := filenames[..|filenames| - 1];
      assert init[..i + 1] == filenames[..i + 1];
      HandleAllStops(s, init, i, folder, src, options, w);
    } else {
      assert filenames[..i + 1] == filenames;
    }
  }

  /** Recording a type that `Resolved` would find anyway changes no path's `Resolved` type. */
  lemma ResolvedKept(metadata: map<string, Crawled>, w: World, filename: string, g: string)
    requires Resolved(metadata, w, filename).Some?
    ensures Resolved(metadata[filename := Resolved(metadata, w, filename).value], w, g) == Resolved(metadata, w, g)
  {
  }

  /**
   * A directory handled without an exception is, in the new tree, a directory whose
   * `unpacked` is false, at the path the search for it arrives at.
   */
  lemma DirectoryInsertedPacked(s: Progress, filename: string, folder: string, src: string,
                                options: Option<CreateOptions>, w: World)
    requires Resolved(s.metadata, w, filename).Some? && Resolved(s.metadata, w, filename).value.kind == Directory
    requires HandleFile(s, filename, folder, src, options, w).error.None?
    ensures SearchNodeFromPath(s.root, w.relative(src, filename)).Ok?
    ensures var loc := SearchNodeFromPath(s.root, w.relative(src, filename)).value;
      var after := At(HandleFile(s, filename, folder, src, options, w).state.root, loc.path);
      after.Some? && IsDirectory(after.value) && after.value.unpacked == Some(false)
  {
    var rel := w.relative(src, filename);
    InsertDirectoryFails(s.root, rel, false);
    SearchNodeFromPathFails(s.root, rel);
    InsertDirectoryMarks(s.root, rel, false);
  }

  /**
   * A file handled without an exception is listed last with the flag it was inserted
   * with; when that flag is set, its node in the new tree is marked unpacked.
   */
  lemma FileListedWithFlag(s: Progress, filename: string, folder: string, src: string,
                           options: Option<CreateOptions>, w: World)
    requires Resolved(s.metadata, w, filename).Some? && Resolved(s.metadata, w, filename).value.kind == File
    requires HandleFile(s, filename, folder, src, options, w).error.None?
    ensures var h := HandleFile(s, filename, folder, src, options, w);
      && options.Some?
      && h.state.files == s.files + [BasicFileInfo(filename, UnpackFlag(options, w, folder, filename))]
      && (UnpackFlag(options, w, folder, filename) ==>
           var relDir := w.relative(src, DirectoryName(filename));
           var relPath := w.relative(src, filename);
           && SearchNodeFromPath(s.root, relDir).Ok?
           && SearchNodeFromPath(SearchNodeFromPath(s.root, relDir).value.root, relPath).Ok?
           && var path := SearchNodeFromPath(SearchNodeFromPath(s.root, relDir).value.root, relPath).value.path;
              At(h.state.root, path).Some? && At(h.state.root, path).value.unpacked == Some(true))
  {
    var c := Resolved(s.metadata, w, filename).value;
    var relDir := w.relative(src, DirectoryName(filename));
    var relPath := w.relative(src, filename);
    if UnpackFlag(options, w, folder, filename) {
      var integrity := IntegrityOfFile(w, filename);
      InsertFileFails(s.root, s.offset, relDir, relPath, true, c.stat, integrity, w.windows);
      InsertFileUnpacked(s.root, s.offset, relDir, relPath, true, c.stat.length, c.stat.hidden, integrity, w.windows);
    }
  }

  /**
   * A run that throws nothing gives every path a type other than a link, leaves
   * `_metadata` with every path's type filled in, and lists exactly the paths of type
   * `File`, in their order, each with its unpack flag.
   */
  lemma {:induction false} HandleAllSucceeds(s: Progress, filenames: seq<string>, folder: string, src: string,
                                             options: Option<CreateOptions>, w: World)
    requires HandleAll(s, filenames, folder, src, options, w).error.None?
    ensures var h := HandleAll(s, filenames, folder, src, options, w);
      && (forall i :: 0 <= i < |filenames| ==>
            Resolved(s.metadata, w, filenames[i]).Some? && Resolved(s.metadata, w, filenames[i]).value.kind != Link)
      && (forall g :: Resolved(h.state.metadata, w, g) == Resolved(s.metadata, w, g))
      && h.state.metadata == Filled(s.metadata, filenames, w)
      && h.state.files == s.files + FileList(filenames, s.metadata, folder, options, w)
    decreases |filenames|
  {
    if |filenames| > 0 {
      var init := filenames[..|filenames| - 1];
      var f := filenames[|filenames| - 1];
      var h0 := HandleAll(s, init, folder, src, options, w);
      HandleAllSucceeds(s, init, folder, src, options, w);
      HandleFileDispatch(h0.state, f, folder, src, options, w);
      var r := Resolved(h0.state.metadata, w, f);
      assert r == Resolved(s.metadata, w, f);
      forall g
        ensures Resolved(h0.state.metadata[f := r.value], w, g) == Resolved(s.metadata, w, g)
      {
        ResolvedKept(h0.state.metadata, w, f, g);
      }
      FilledStep(s.metadata, filenames, w, h0.state.metadata);
      if r.value.kind == File {
        FileListedWithFlag(h0.state, f, folder, src, options, w);
      }
      forall i | 0 <= i < |filenames|
        ensures Resolved(s.metadata, w, filenames[i]).Some? && Resolved(s.metadata, w, filenames[i]).value.kind != Link
      {
        if i < |filenames| - 1 {
          assert filenames[i] == init[i];
        }
      }
    }
  }

  /** One more path in `Filled`, from the map the earlier paths give. */
  lemma FilledStep(metadata: map<string, Crawled>, filenames: seq<string>, w: World, m: map<string, Crawled>)
    requires |filenames| > 0 && m == Filled(metadata, filenames[..|filenames| - 1], w)
    requires Resolved(m, w, filenames[|filenames| - 1]).Some?
    ensures Filled(metadata, filenames, w) == m[filenames[|filenames| - 1] := Resolved(m, w, filenames[|filenames| - 1]).value]
  {
    var f := filenames[|filenames| - 1];
    if f in m {
      assert m[f := m[f]] == m;
    }
  }

  /**
   * A run that throws nothing gives every path a type other than a link and writes the
   * archive from exactly the paths of type `File`, in their order.
   */
  lemma CreateSucceeds(folder: string, dest: string, options: Option<CreateOptions>,
                       filenames: seq<string>, metadata: map<string, Crawled>, w: World)
    requires CreateFromFiles(folder, dest, options, filenames, metadata, w).result.Ok?
    ensures forall i :: 0 <= i < |filenames| ==>
      Resolved(metadata, w, filenames[i]).Some? && Resolved(metadata, w, filenames[i]).value.kind != Link
    ensures var src := w.fullPath(folder);
      var h := HandleAll(Progress(EmptyDirectory(), 0, [], metadata), filenames, folder, src, options, w);
      && h.state.files == FileList(filenames, metadata, folder, options, w)
      && CreateFromFiles(folder, dest, options, filenames, metadata, w).result.value
         == Package(DirectoryName(dest), ArchiveOf(w.serialize(h.state.root), h.state.files, dest, src, w.contents, w.relative).value)
  {
    var src := w.fullPath(folder);
    var s := Progress(EmptyDirectory(), 0, [], metadata);
    HandleAllSucceeds(s, filenames, folder, src, options, w);
    assert [] + FileList(filenames, metadata, folder, options, w) == FileList(filenames, metadata, folder, options, w);
  }

  /** A path list whose first path is a link throws `NotImplementedException` and writes nothing. */
  lemma LinkFirstAborts(folder: string, dest: string, options: Option<CreateOptions>,
                        filenames: seq<string>, metadata: map<string, Crawled>, w: World)
    requires |filenames| > 0 && Resolved(metadata, w, filenames[0]).Some?
    requires Resolved(metadata, w, filenames[0]).value.kind == Link
    ensures CreateFromFiles(folder, dest, options, filenames, metadata, w).result == Err(LinkNotImplemented)
  {
    var src := w.fullPath(folder);
    var s := Progress(EmptyDirectory(), 0, [], metadata);
    HandleFirstFails(s, filenames, folder, src, options, w);
    HandleFileDispatch(s, filenames[0], folder, src, options, w);
  }

  /** An exception on the first path ends the run with it. */
  lemma {:induction false} HandleFirstFails(s: Progress, filenames: seq<string>, folder: string, src: string,
                                            options: Option<CreateOptions>, w: World)
    requires |filenames| > 0 && HandleFile(s, filenames[0], folder, src, options, w).error.Some?
    ensures HandleAll(s, filenames, folder, src, options, w) == HandleFile(s, filenames[0], folder, src, options, w)
    decreases |filenames|
  {
    if |filenames| > 1 {
      var init := filenames[..|filenames| - 1];
      assert init[0] == filenames[0];
      HandleFirstFails(s, init, folder, src, options, w);
    } else {
      assert filenames[..0] == [];
    }
  }
}
