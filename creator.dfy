/**
 * The `AsarCreator` object: the folder to pack, the archive to write, the options, and
 * the crawled paths with their recorded types. Each method is proved to end in the
 * state, and with the result, that `CreatorSpec` gives for it.
 */
module Creator {
  import opened Wrappers
  import opened Bytes
  import opened Paths
  import opened Integrity
  import opened Entries
  import opened Tree
  import opened FilesystemSpec
  import opened Filesystems
  import opened Disk
  import opened CreatorSpec

  class AsarCreator {
    const folderPath: string
    const destPath: string
    const options: Option<CreateOptions>
    var filenames: seq<string>
    var metadata: map<string, Crawled>

    /** The constructor, once both paths are known not to be null. */
    constructor(folder: string, dest: string, opts: Option<CreateOptions>)
      ensures folderPath == folder && destPath == dest && options == opts
      ensures filenames == [] && metadata == map[]
    {
      folderPath := folder;
      destPath := dest;
      options := opts;
      filenames := [];
      metadata := map[];
    }

    /**
     * `CreatePackageWithOptions`: take the crawler's paths and types (the crawl itself is
     * an input here), then create the package from them.
     */
    method CreatePackageWithOptions(crawledFilenames: seq<string>, crawledMetadata: map<string, Crawled>, w: World)
      returns (r: Result<Package, CreateError>)
      modifies this
      ensures filenames == crawledFilenames
      ensures Created(r, metadata) == CreateFromFiles(folderPath, destPath, options, crawledFilenames, crawledMetadata, w)
    {
      filenames := crawledFilenames;
      metadata := crawledMetadata;
      r := CreatePackageFromFiles(w);
    }

    /**
     * `CreatePackageFromFiles`: a filesystem on the folder, every path handled in order
     * (the first exception ends the run), then `InsertsDone`.
     */
    method CreatePackageFromFiles(w: World) returns (r: Result<Package, CreateError>)
      modifies this
      ensures filenames == old(filenames)
      ensures Created(r, metadata) == CreateFromFiles(folderPath, destPath, options, old(filenames), old(metadata), w)
    {
      var filesystem := new Filesystem(w.fullPath(folderPath));
      var files: seq<BasicFileInfo> := [];
      var filenamesSorted := filenames;
      ghost var start := Progress(EmptyDirectory(), 0, [], metadata);
      var i := 0;
      while i < |filenamesSorted|
        invariant 0 <= i <= |filenamesSorted|
        invariant filenames == old(filenames) == filenamesSorted
        invariant filesystem.src == w.fullPath(folderPath)
        invariant HandleAll(start, filenamesSorted[..i], folderPath, filesystem.src, options, w)
                  == Handled(Progress(filesystem.header, filesystem.offset, files, metadata), None)
      {
        assert filenamesSorted[..i + 1][..i] == filenamesSorted[..i];
        var error;
        files, error := HandleFile(filesystem, filenamesSorted[i], files, w);
        if error.Some? {
          HandleAllStops(start, filenamesSorted, i, folderPath, filesystem.src, options, w);
          return Err(error.value);
        }
        i := i + 1;
      }
      assert filenamesSorted[..i] == filenamesSorted;
      r := InsertsDone(filesystem, files, w);
    }

    /**
     * `HandleFile(filesystem, filename, files)`: record the path's type, then insert a
     * directory, or list and insert a file, or throw for a link.
     */
    method HandleFile(filesystem: Filesystem, filename: string, files: seq<BasicFileInfo>, w: World)
      returns (files': seq<BasicFileInfo>, error: Option<CreateError>)
      modifies this, filesystem
      ensures filenames == old(filenames)
      ensures CreatorSpec.HandleFile(Progress(old(filesystem.header), old(filesystem.offset), files, old(metadata)),
                                     filename, folderPath, filesystem.src, options, w)
              == Handled(Progress(filesystem.header, filesystem.offset, files', metadata), error)
    {
      files' := files;
      if filename !in metadata {
        var fileType := w.determine(filename);
        if fileType.None? {
          return files, Some(UnknownFileType(filename));
        }
        metadata := metadata[filename := fileType.value];
      }
      var file := metadata[filename];
      match file.kind
      case Directory =>
        var e := filesystem.InsertDirectory(w.relative(filesystem.src, filename), false);
        error := if e.Some? then Some(InsertFailed(e.value)) else None;
      case File =>
        var shouldUnpack := CreatorSpec.ShouldUnpackPath(options, w.relative(folderPath, DirectoryName(filename)));
        if shouldUnpack.Err? {
          return files, Some(shouldUnpack.error);
        }
        files' := files + [BasicFileInfo(filename, shouldUnpack.value)];
        var bytes := w.contents(filename);
        WholeReadsWell(bytes);
        var e := filesystem.InsertFile(w.relative(filesystem.src, DirectoryName(filename)), w.relative(filesystem.src, filename),
                                       shouldUnpack.value, file.stat, bytes, w.sha, WholeReads(bytes), w.windows);
        error := if e.Some? then Some(InsertFailed(e.value)) else None;
      case Link =>
        error := Some(LinkNotImplemented);
    }

    /** `InsertsDone`: name the archive's directory and write the archive. */
    method InsertsDone(filesystem: Filesystem, files: seq<BasicFileInfo>, w: World) returns (r: Result<Package, CreateError>)
      ensures r == CreatorSpec.InsertsDone(filesystem.header, files, destPath, filesystem.src, w)
    {
      var outputDirectory := DirectoryName(destPath);
      var written := WriteFileSystem(destPath, filesystem, files, w.serialize, w.contents, w.relative);
      if written.Err? {
        return Err(ArchiveFailed(written.error));
      }
      r := Ok(Package(outputDirectory, written.value));
    }
  }

  /**
   * The constructor's null checks: `ArgumentNullException` exactly when a path is null,
   * and otherwise a creator on those paths with nothing crawled yet.
   */
  method NewAsarCreator(folder: Option<string>, dest: Option<string>, opts: Option<CreateOptions>)
    returns (r: Result<AsarCreator, CreateError>)
    ensures r.Err? <==> folder.None? || dest.None?
    ensures r.Err? ==> r.error == NullArgument
    ensures r.Ok? ==> fresh(r.value) && r.value.folderPath == folder.value && r.value.destPath == dest.value
                      && r.value.options == opts && r.value.filenames == [] && r.value.metadata == map[]
  {
    if folder.None? || dest.None? {
      return Err(NullArgument);
    }
    var c := new AsarCreator(folder.value, dest.value, opts);
    r := Ok(c);
  }
}
