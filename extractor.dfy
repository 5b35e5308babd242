/**
 * `AsarExtractor.ExtractAll` as a method over the `Filesystem` object the cache returns:
 * each entry's lookup updates that object's tree, and the method is proved to take the
 * actions and to throw what `ExtractorSpec` gives for it.
 */
module Extractor {
  import opened Wrappers
  import opened Bytes
  import opened Text
  import opened Paths
  import opened Entries
  import opened Tree
  import opened Filesystems
  import opened Disk
  import opened ExtractorSpec

  /**
   * The loop body for `fullPath`: strip the leading character, look the entry up, refuse
   * a destination outside `dest`, then create a directory, recreate a link, or read
   * the file and write it.
   */
  method ExtractEntry(filesystem: Filesystem, done: seq<Action>, archive: seq<byte>, fullPath: string,
                      dest: string, w: World) returns (actions: seq<Action>, error: Option<EntryError>)
    modifies filesystem
    ensures filesystem.headerSize == old(filesystem.headerSize)
    ensures ExtractorSpec.ExtractEntry(old(filesystem.header), done, filesystem.headerSize, filesystem.src, archive,
                                       fullPath, dest, w) == Step(filesystem.header, actions, error)
  {
    if |fullPath| == 0 {
      return [], Some(NoLeadingChar(fullPath));
    }
    var filename := fullPath[1..];
    var destFilename := Combine(dest, filename);
    var file := filesystem.GetFile(filename, w.windows, w.fuel);
    if file.Err? {
      return [], Some(LookupFailed(fullPath, file.error));
    }
    var relativePath := w.relative(dest, destFilename);
    if StartsWith(relativePath, "..") {
      return [], Some(WritesOut(fullPath, destFilename));
    }
    var node := At(filesystem.header, file.value).value;
    actions, error := ExtractNode(filesystem, node, done, archive, fullPath, dest, w);
  }

  /** The entry's node found and its destination accepted: create a directory, recreate a link, or read and write a file. */
  method ExtractNode(filesystem: Filesystem, node: Entry, done: seq<Action>, archive: seq<byte>, fullPath: string,
                     dest: string, w: World) returns (actions: seq<Action>, error: Option<EntryError>)
    requires |fullPath| > 0
    ensures ExtractorSpec.ExtractNode(filesystem.header, node, done, filesystem.headerSize, filesystem.src, archive,
                                      fullPath, dest, w) == Step(filesystem.header, actions, error)
  {
    var filename := fullPath[1..];
    var destFilename := Combine(dest, filename);
    if IsDirectory(node) {
      return [MakeDirectory(destFilename)], None;
    } else if IsLink(node) {
      actions, error := ExtractLink(node.link.value, fullPath, destFilename, done, dest, w);
    } else if IsFile(node) {
      var content := ReadFile(filesystem.src, filesystem.headerSize, filename, node, archive, w.readFile);
      if content.Err? {
        return [], Some(Unreadable(fullPath, content.error));
      }
      actions := [WriteBytes(destFilename, content.value)];
      if node.executable == Some(true) && !w.windows {
        actions := actions + [SetPermission(destFilename, "755")];
      }
      error := None;
    } else {
      actions, error := [], None;
    }
  }

  /**
   * A link entry: delete the destination, refuse a link into a directory outside `dest`,
   * then copy the target on Windows or create a relative symbolic link elsewhere.
   */
  method ExtractLink(link: string, fullPath: string, destFilename: string, done: seq<Action>, dest: string, w: World)
    returns (actions: seq<Action>, error: Option<EntryError>)
    ensures actions == LinkActions(link, destFilename, done, dest, w)
    ensures error == LinkError(link, fullPath, dest, w)
  {
    var linkSrcPath := GetDirectoryName(Combine(dest, link));
    var linkDestPath := GetDirectoryName(destFilename);
    var relativeLinkPath := w.relative(linkDestPath, linkSrcPath);
    actions := [DeleteFile(destFilename)];
    var linkTo := Combine(relativeLinkPath, GetFileName(link));
    if StartsWith(w.relative(dest, linkSrcPath), "..") {
      return actions, Some(LinksOut(fullPath, link, linkSrcPath));
    }
    if w.windows {
      var targetPath := Combine(linkSrcPath, GetFileName(link));
      var kind := w.probe(done + actions, targetPath);
      if kind == Folder {
        actions := actions + [MakeDirectory(destFilename), CopyDirectory(targetPath, destFilename)];
      } else if kind == RegularFile {
        actions := actions + [MakeDirectory(GetDirectoryName(destFilename)), CopyFile(targetPath, destFilename)];
      }
    } else {
      actions := actions + [MakeDirectory(GetDirectoryName(destFilename)), Symlink(linkTo, destFilename)];
    }
    error := None;
  }

  /**
   * The `foreach` over the listed paths: each entry's actions are appended and its error,
   * if it has one, is collected, and the loop always goes on.
   */
  method ExtractEntries(filesystem: Filesystem, filenames: seq<string>, archive: seq<byte>, dest: string,
                        actions0: seq<Action>, w: World) returns (actions: seq<Action>, errors: seq<EntryError>)
    modifies filesystem
    ensures filesystem.headerSize == old(filesystem.headerSize)
    ensures Run(Progress(old(filesystem.header), actions0, []), filenames,
                Body(filesystem.headerSize, filesystem.src, archive, dest, w))
         == Progress(filesystem.header, actions, errors)
  {
    ghost var body := Body(filesystem.headerSize, filesystem.src, archive, dest, w);
    ghost var start := Progress(filesystem.header, actions0, []);
    ghost var headerSize := filesystem.headerSize;
    actions, errors := actions0, [];
    for i := 0 to |filenames|
      invariant filesystem.headerSize == headerSize
      invariant Run(start, filenames[..i], body) == Progress(filesystem.header, actions, errors)
    {
      assert filenames[..i + 1][..i] == filenames[..i];
      var stepActions, error := ExtractEntry(filesystem, actions, archive, filenames[i], dest, w);
      actions := actions + stepActions;
      if error.Some? {
        errors := errors + [error.value];
      }
    }
    assert filenames[..|filenames|] == filenames;
  }

  /**
   * `ExtractAll(archivePath, dest)`: read the filesystem through the cache, list its
   * paths, create `dest`, extract every path, then throw the aggregate of the errors if
   * there are any. `archive` is the archive file's bytes and `fullPath` its full path.
   */
  method ExtractAll(cache: Cache, archivePath: string, fullPath: string, archive: seq<byte>,
                    deserialize: seq<byte> -> Entry, dest: string, w: World) returns (r: Extracted)
    modifies cache, if cache.Hit(archivePath) then {cache.entries[archivePath]} else {}
    ensures !old(cache.Hit(archivePath)) ==> r == ExtractArchive(archive, deserialize, fullPath, dest, w)
    ensures old(cache.Hit(archivePath)) ==>
      var cached := old(cache.entries[archivePath]);
      r == ExtractFrom(old(cached.header), old(cached.headerSize), cached.src, archive, dest, w)
  {
    var read := cache.ReadFilesystemSync(archivePath, fullPath, archive, deserialize);
    if read.Err? {
      return Extracted([], Some(HeaderFailed(read.error)));
    }
    var filesystem := read.value;
    var filenames := filesystem.ListFiles(false);
    var actions, errors := ExtractEntries(filesystem, filenames, archive, dest, [MakeDirectory(dest)], w);
    if |errors| > 0 {
      return Extracted(actions, Some(Aggregate(errors)));
    }
    r := Extracted(actions, None);
  }
}
