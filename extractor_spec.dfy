/**
 * What `AsarExtractor.ExtractAll` does, as functions: the destination directory is
 * created, then every path the header lists is tried in order. An entry that fails adds
 * one error and the loop goes on, and the errors are thrown together at the end. What it
 * does to the disk is a list of actions. The lookups of the header tree may add
 * directories to it, so the tree is threaded from entry to entry.
 */
module ExtractorSpec {
  import opened Wrappers
  import opened Bytes
  import opened Text
  import opened Paths
  import opened Entries
  import opened Tree
  import opened FilesystemQueries
  import opened Disk

  /** The effects of extraction on the disk, in the order they happen. */
  datatype Action =
    | MakeDirectory(path: string)                 // Directory.CreateDirectory
    | DeleteFile(path: string)                    // File.Delete, its errors ignored
    | CopyDirectory(source: string, target: string)
    | CopyFile(source: string, target: string)    // File.Copy, overwriting
    | Symlink(linkTarget: string, path: string)   // Extensions.CreateSymbolicLink
    | WriteBytes(path: string, content: seq<byte>) // File.WriteAllBytes
    | SetPermission(path: string, mode: string)   // Extensions.SetUnixFilePermission

  /** The path an action writes to. */
  function Written(a: Action): string {
    match a
    case MakeDirectory(p) => p
    case DeleteFile(p) => p
    case CopyDirectory(_, t) => t
    case CopyFile(_, t) => t
    case Symlink(_, p) => p
    case WriteBytes(p, _) => p
    case SetPermission(p, _) => p
  }

  /** What `Directory.Exists` and `File.Exists` would say about a path. */
  datatype PathKind = Missing | Folder | RegularFile

  /**
   * The world extraction runs in: `GetRelativePath(from, to)`, what is on the disk at a
   * path once the given actions have run, `File.ReadAllBytes`, whether the platform is
   * Windows, and how many links a lookup may follow.
   */
  datatype World = World(
    relative: (string, string) -> string,
    probe: (seq<Action>, string) -> PathKind,
    readFile: string -> seq<byte>,
    windows: bool,
    fuel: nat)

  /** The error one entry adds to `extractionErrors`. */
  datatype EntryError =
    | NoLeadingChar(fullPath: string)              // `Substring(1)` of the empty string
    | LookupFailed(fullPath: string, fsError: FsError)
    | WritesOut(fullPath: string, destFilename: string)
    | LinksOut(fullPath: string, link: string, linkSrcPath: string)
    | Unreadable(fullPath: string, diskError: DiskError)

  /** What extraction throws: the header could not be read, or the errors of all entries together. */
  datatype ExtractFailure = HeaderFailed(diskError: DiskError) | Aggregate(errors: seq<EntryError>)

  /** The tree after an entry's lookup, what the entry did, and the error it added, if any. */
  datatype Step = Step(root: Entry, actions: seq<Action>, error: Option<EntryError>)

  /** `relativePath.StartsWith("..")`: the path leaves the directory it is relative to. */
  predicate Outside(relativePath: string) {
    StartsWith(relativePath, "..")
  }

  /**
   * One pass of the loop body for `fullPath`, after the actions `done`: strip the leading
   * character, look the entry up, refuse a destination outside `dest`, then make a
   * directory, recreate a link, or read the file and write it (with mode 755 when it is
   * executable and the platform is not Windows).
   */
  function ExtractEntry(root: Entry, done: seq<Action>, headerSize: int, src: string, archive: seq<byte>,
                        fullPath: string, dest: string, w: World): Step
  {
    if |fullPath| == 0 then Step(root, [], Some(NoLeadingChar(fullPath)))
    else
      var filename := fullPath[1..];
      var destFilename := Combine(dest, filename);
      var found := GetFile(root, filename, w.windows, w.fuel);
      match found.result
      case Err(e) => Step(found.root, [], Some(LookupFailed(fullPath, e)))
      case Ok(at) =>
        if Outside(w.relative(dest, destFilename)) then
          Step(found.root, [], Some(WritesOut(fullPath, destFilename)))
        else
          ExtractNode(found.root, At(found.root, at).value, done, headerSize, src, archive, fullPath, dest, w)
  }

  /** The entry's node `file` found and its destination accepted: what is done depends on the kind of node. */
  function ExtractNode(root: Entry, file: Entry, done: seq<Action>, headerSize: int, src: string, archive: seq<byte>,
                       fullPath: string, dest: string, w: World): Step
    requires |fullPath| > 0
  {
    var destFilename := Combine(dest, fullPath[1..]);
    if IsDirectory(file) then Step(root, [MakeDirectory(destFilename)], None)
    else if IsLink(file) then
      Step(root, LinkActions(file.link.value, destFilename, done, dest, w), LinkError(file.link.value, fullPath, dest, w))
    else if IsFile(file) then
      match ReadFile(src, headerSize, fullPath[1..], file, archive, w.readFile)
      case Err(e) => Step(root, [], Some(Unreadable(fullPath, e)))
      case Ok(content) => Step(root, FileActions(destFilename, content, file.executable, w.windows), None)
    else Step(root, [], None)
  }

  /** `Extensions.GetDirectoryName(Path.Combine(dest, link))`: the directory the link points into. */
  function LinkSrcPath(link: string, dest: string): string {
    GetDirectoryName(Combine(dest, link))
  }

  /** A link's error: its target directory lies outside `dest`. */
  function LinkError(link: string, fullPath: string, dest: string, w: World): Option<EntryError> {
    if Outside(w.relative(dest, LinkSrcPath(link, dest))) then Some(LinksOut(fullPath, link, LinkSrcPath(link, dest)))
    else None
  }

  /**
   * A link: delete what is at the destination, then (unless the link points outside
   * `dest`) copy the target on Windows, or create a relative symbolic link elsewhere.
   */
  function LinkActions(link: string, destFilename: string, done: seq<Action>, dest: string, w: World): (r: seq<Action>)
    ensures |r| > 0 && r[0] == DeleteFile(destFilename)
    ensures Outside(w.relative(dest, LinkSrcPath(link, dest))) ==> r == [DeleteFile(destFilename)]
    ensures forall a :: a in r ==> Written(a) == destFilename || Written(a) == GetDirectoryName(destFilename)
  {
    var linkSrcPath := LinkSrcPath(link, dest);
    var deleted := [DeleteFile(destFilename)];
    if Outside(w.relative(dest, linkSrcPath)) then deleted
    else if w.windows then deleted + CopyTarget(Combine(linkSrcPath, GetFileName(link)), destFilename, w.probe(done + deleted, Combine(linkSrcPath, GetFileName(link))))
    else deleted + CreateLink(link, linkSrcPath, destFilename, w)
  }

  /** On Windows: copy the directory or the file the link points to, if there is one. */
  function CopyTarget(targetPath: string, destFilename: string, kind: PathKind): (r: seq<Action>)
    ensures forall a :: a in r ==> Written(a) == destFilename || Written(a) == GetDirectoryName(destFilename)
  {
    match kind
    case Folder => [MakeDirectory(destFilename), CopyDirectory(targetPath, destFilename)]
    case RegularFile => [MakeDirectory(GetDirectoryName(destFilename)), CopyFile(targetPath, destFilename)]
    case Missing => []
  }

  /** Elsewhere: the symbolic link, relative to the destination's directory, beside its directory's creation. */
  function CreateLink(link: string, linkSrcPath: string, destFilename: string, w: World): (r: seq<Action>)
    ensures forall a :: a in r ==> Written(a) == destFilename || Written(a) == GetDirectoryName(destFilename)
  {
    var parent := GetDirectoryName(destFilename);
    [MakeDirectory(parent), Symlink(Combine(w.relative(parent, linkSrcPath), GetFileName(link)), destFilename)]
  }

  /** A file: its bytes written, then mode 755 when it is executable and the platform is not Windows. */
  function FileActions(destFilename: string, content: seq<byte>, executable: Option<bool>, windows: bool): seq<Action> {
    [WriteBytes(destFilename, content)]
      + if executable == Some(true) && !windows then [SetPermission(destFilename, "755")] else []
  }

  /** The state the loop carries: the tree, the actions so far and `extractionErrors`. */
  datatype Progress = Progress(root: Entry, actions: seq<Action>, errors: seq<EntryError>)

  /** The progress after one more entry, whose step is `step`. */
  function After(p: Progress, step: Step): Progress {
    Progress(step.root, p.actions + step.actions, p.errors + if step.error.Some? then [step.error.value] else [])
  }

  /** The `foreach`: every entry in order, whatever the earlier ones did; `step` is the loop body. */
  function Run(s: Progress, entries: seq<string>, step: (Progress, string) -> Step): Progress
    decreases |entries|
  {
    if |entries| == 0 then s
    else
      var p := Run(s, entries[..|entries| - 1], step);
      After(p, step(p, entries[|entries| - 1]))
  }

  /** The loop body of `ExtractAll` for one archive and destination. */
  function Body(headerSize: int, src: string, archive: seq<byte>, dest: string, w: World): (Progress, string) -> Step {
    (p: Progress, fullPath: string) => ExtractEntry(p.root, p.actions, headerSize, src, archive, fullPath, dest, w)
  }

  /** What extraction did, and what it threw at the end, if anything. */
  datatype Extracted = Extracted(actions: seq<Action>, failure: Option<ExtractFailure>)

  /**
   * `ExtractAll` on a filesystem whose tree is `root`: create `dest`, extract every listed
   * path, and throw the aggregate of the errors if there are any.
   */
  function ExtractFrom(root: Entry, headerSize: int, src: string, archive: seq<byte>, dest: string, w: World): Extracted {
    var p := Run(Progress(root, [MakeDirectory(dest)], []), ListFiles(root, false), Body(headerSize, src, archive, dest, w));
    Extracted(p.actions, if |p.errors| > 0 then Some(Aggregate(p.errors)) else None)
  }

  /** `ExtractAll` when the archive is read afresh: a header that cannot be read is thrown before anything is done. */
  function ExtractArchive(archive: seq<byte>, deserialize: seq<byte> -> Entry, fullPath: string, dest: string, w: World): Extracted {
    match ReadArchiveHeader(archive, deserialize)
    case Err(e) => Extracted([], Some(HeaderFailed(e)))
    case Ok(h) => ExtractFrom(h.header, h.headerSize, fullPath, archive, dest, w)
  }

  // ---- What extraction guarantees ----

  /** The step entry `i` takes, from the progress the entries before it leave. */
  function StepAt(s: Progress, entries: seq<string>, i: nat, step: (Progress, string) -> Step): Step
    requires i < |entries|
  {
    step(Run(s, entries[..i], step), entries[i])
  }

  /**
   * The loop goes on after a failure: running `xs + ys` is running `ys` from where `xs`
   * left off.
   */
  lemma {:induction false} RunSplit(s: Progress, xs: seq<string>, ys: seq<string>, step: (Progress, string) -> Step)
    ensures Run(s, xs + ys, step) == Run(Run(s, xs, step), ys, step)
    decreases |ys|
  {
    if |ys| == 0 {
      assert xs + ys == xs;
    } else {
      var ys' := ys[..|ys| - 1];
      assert (xs + ys)[..|xs + ys| - 1] == xs + ys';
      assert (xs + ys)[|xs + ys| - 1] == ys[|ys| - 1];
      RunSplit(s, xs, ys', step);
    }
  }

  /** Later entries only add actions and errors. */
  lemma {:induction false} GrowsOnly(s: Progress, entries: seq<string>, step: (Progress, string) -> Step)
    ensures s.actions <= Run(s, entries, step).actions
    ensures s.errors <= Run(s, entries, step).errors
    decreases |entries|
  {
    if |entries| > 0 {
      GrowsOnly(s, entries[..|entries| - 1], step);
    }
  }

  /** Entry `i` is always attempted: its actions and its error follow those of the entries before it. */
  lemma EveryEntryAttempted(s: Progress, entries: seq<string>, i: nat, step: (Progress, string) -> Step)
    requires i < |entries|
    ensures var p := Run(s, entries[..i], step);
      var st := StepAt(s, entries, i, step);
      var q := Run(s, entries, step);
      && p.actions + st.actions <= q.actions
      && p.errors + (if st.error.Some? then [st.error.value] else []) <= q.errors
  {
    var front := entries[..i + 1];
    RunSplit(s, front, entries[i + 1..], step);
    assert front + entries[i + 1..] == entries;
    assert front[..i] == entries[..i];
    GrowsOnly(Run(s, front, step), entries[i + 1..], step);
  }

  /** Errors are added exactly when some entry fails, and at most one per entry. */
  lemma {:induction false} ErrorsIffFailure(s: Progress, entries: seq<string>, step: (Progress, string) -> Step)
    ensures |Run(s, entries, step).errors| > |s.errors| <==>
      exists i :: 0 <= i < |entries| && StepAt(s, entries, i, step).error.Some?
    ensures |Run(s, entries, step).errors| <= |s.errors| + |entries|
    decreases |entries|
  {
    if |entries| > 0 {
      var n := |entries| - 1;
      var init := entries[..n];
      ErrorsIffFailure(s, init, step);
      GrowsOnly(s, init, step);
      forall i | 0 <= i < n
        ensures StepAt(s, entries, i, step) == StepAt(s, init, i, step)
      {
        assert entries[..i] == init[..i];
        assert entries[i] == init[i];
      }
      assert StepAt(s, entries, n, step) == step(Run(s, init, step), entries[n]);
    }
  }

  /**
   * `ExtractAll` first creates `dest`; it throws the aggregate exactly when an entry
   * failed, after running every entry, and the aggregate carries every entry's error;
   * and everything it does after creating `dest` writes the checked destination of a
   * listed path, or the directory holding it.
   */
  lemma ExtractAllOutcome(root: Entry, headerSize: int, src: string, archive: seq<byte>, dest: string, w: World)
    ensures var x := ExtractFrom(root, headerSize, src, archive, dest, w);
      var s := Progress(root, [MakeDirectory(dest)], []);
      var listing := ListFiles(root, false);
      var body := Body(headerSize, src, archive, dest, w);
      && |x.actions| > 0 && x.actions[0] == MakeDirectory(dest)
      && (x.failure.Some? <==> exists i :: 0 <= i < |listing| && StepAt(s, listing, i, body).error.Some?)
      && (x.failure.Some? ==> x.failure.value == Aggregate(Run(s, listing, body).errors))
      && forall a :: a in x.actions[1..] ==> exists i :: 0 <= i < |listing| && WrittenFor(a, listing[i], dest, w)
  {
    var s := Progress(root, [MakeDirectory(dest)], []);
    var listing := ListFiles(root, false);
    var body := Body(headerSize, src, archive, dest, w);
    ErrorsIffFailure(s, listing, body);
    RunStaysInside(s, listing, headerSize, src, archive, dest, w);
  }

  /** `Combine(dest, fullPath[1..])`: where a listed path is extracted to. */
  function DestinationOf(dest: string, fullPath: string): string
    requires |fullPath| > 0
  {
    Combine(dest, fullPath[1..])
  }

  /**
   * An entry writes nowhere unless its destination passed the check: every action it
   * takes writes the destination or the directory holding it, and an entry whose
   * destination lies outside `dest` takes none.
   */
  lemma EntryStaysInside(root: Entry, done: seq<Action>, headerSize: int, src: string, archive: seq<byte>,
                         fullPath: string, dest: string, w: World)
    ensures var step := ExtractEntry(root, done, headerSize, src, archive, fullPath, dest, w);
      |step.actions| > 0 ==>
        && |fullPath| > 0
        && !Outside(w.relative(dest, DestinationOf(dest, fullPath)))
        && forall a :: a in step.actions ==>
             Written(a) == DestinationOf(dest, fullPath) || Written(a) == GetDirectoryName(DestinationOf(dest, fullPath))
  {
    if |fullPath| > 0 {
      var destFilename := DestinationOf(dest, fullPath);
      var found := GetFile(root, fullPath[1..], w.windows, w.fuel);
      if found.result.Ok? && !Outside(w.relative(dest, destFilename)) {
        var file := At(found.root, found.result.value).value;
        if !IsDirectory(file) && !IsLink(file) && IsFile(file) {
          var read := ReadFile(src, headerSize, fullPath[1..], file, archive, w.readFile);
          if read.Ok? {
            FileWritesDestination(destFilename, read.value, file.executable, w.windows);
          }
        }
      }
    }
  }

  /** The actions for a file write its destination. */
  lemma FileWritesDestination(destFilename: string, content: seq<byte>, executable: Option<bool>, windows: bool)
    ensures forall a :: a in FileActions(destFilename, content, executable, windows) ==>
      Written(a) == destFilename && (a.WriteBytes? || a.SetPermission?)
  {
  }

  /** `a` writes the destination of `fullPath`, or its directory, and that destination passed the check. */
  predicate WrittenFor(a: Action, fullPath: string, dest: string, w: World) {
    && |fullPath| > 0
    && !Outside(w.relative(dest, DestinationOf(dest, fullPath)))
    && (Written(a) == DestinationOf(dest, fullPath) || Written(a) == GetDirectoryName(DestinationOf(dest, fullPath)))
  }

  /**
   * What every step's actions satisfy, each for its own entry, every action the loop adds
   * satisfies for one of the entries.
   */
  lemma {:induction false} RunActionsFrom(s: Progress, entries: seq<string>, step: (Progress, string) -> Step,
                                          ok: (Action, string) -> bool)
    requires forall p: Progress, e: string, a: Action :: a in step(p, e).actions ==> ok(a, e)
    ensures var q := Run(s, entries, step);
      && s.actions <= q.actions
      && forall a :: a in q.actions[|s.actions|..] ==> exists i :: 0 <= i < |entries| && ok(a, entries[i])
    decreases |entries|
  {
    if |entries| > 0 {
      var n := |entries| - 1;
      var init := entries[..n];
      var p := Run(s, init, step);
      RunActionsFrom(s, init, step, ok);
      var st := step(p, entries[n]);
      var q := Run(s, entries, step);
      assert q.actions[|s.actions|..] == p.actions[|s.actions|..] + st.actions;
      forall a | a in q.actions[|s.actions|..]
        ensures exists i :: 0 <= i < |entries| && ok(a, entries[i])
      {
        if a in st.actions {
          assert ok(a, entries[n]);
        } else {
          var i :| 0 <= i < n && ok(a, init[i]);
          assert entries[i] == init[i];
        }
      }
    }
  }

  /**
   * Nothing is written outside `dest` except through an entry that passed the check:
   * every action the loop adds writes the checked destination of one of the entries, or
   * the directory holding it.
   */
  lemma RunStaysInside(s: Progress, entries: seq<string>, headerSize: int, src: string,
                       archive: seq<byte>, dest: string, w: World)
    ensures var q := Run(s, entries, Body(headerSize, src, archive, dest, w));
      && s.actions <= q.actions
      && forall a :: a in q.actions[|s.actions|..] ==> exists i :: 0 <= i < |entries| && WrittenFor(a, entries[i], dest, w)
  {
    var body := Body(headerSize, src, archive, dest, w);
    var ok := (a: Action, e: string) => WrittenFor(a, e, dest, w);
    forall p: Progress, e: string, a: Action | a in body(p, e).actions
      ensures ok(a, e)
    {
      EntryStaysInside(p.root, p.actions, headerSize, src, archive, e, dest, w);
    }
    RunActionsFrom(s, entries, body, ok);
  }

  /** An entry whose destination lies outside `dest` adds its error and does nothing else. */
  lemma EscapeRefused(root: Entry, done: seq<Action>, headerSize: int, src: string, archive: seq<byte>,
                      fullPath: string, dest: string, w: World)
    requires |fullPath| > 0 && GetFile(root, fullPath[1..], w.windows, w.fuel).result.Ok?
    requires Outside(w.relative(dest, DestinationOf(dest, fullPath)))
    ensures ExtractEntry(root, done, headerSize, src, archive, fullPath, dest, w)
         == Step(GetFile(root, fullPath[1..], w.windows, w.fuel).root, [], Some(WritesOut(fullPath, DestinationOf(dest, fullPath))))
  {
  }

  /** A link pointing outside `dest` is refused only after its destination has been deleted. */
  lemma LinkOutsideDeletesFirst(root: Entry, done: seq<Action>, headerSize: int, src: string, archive: seq<byte>,
                                fullPath: string, dest: string, w: World)
    requires |fullPath| > 0
    requires var found := GetFile(root, fullPath[1..], w.windows, w.fuel);
      && found.result.Ok? && !Outside(w.relative(dest, DestinationOf(dest, fullPath)))
      && var file := At(found.root, found.result.value).value;
      && !IsDirectory(file) && IsLink(file) && Outside(w.relative(dest, LinkSrcPath(file.link.value, dest)))
    ensures var step := ExtractEntry(root, done, headerSize, src, archive, fullPath, dest, w);
      var file := At(step.root, GetFile(root, fullPath[1..], w.windows, w.fuel).result.value).value;
      && step.actions == [DeleteFile(DestinationOf(dest, fullPath))]
      && step.error == Some(LinksOut(fullPath, file.link.value, LinkSrcPath(file.link.value, dest)))
  {
  }

  /** On Windows links are followed, so a link entry is never met and its copying branch never runs. */
  lemma WindowsMeetsNoLinks(root: Entry, done: seq<Action>, headerSize: int, src: string, archive: seq<byte>,
                            fullPath: string, dest: string, w: World)
    requires w.windows
    ensures forall a :: a in ExtractEntry(root, done, headerSize, src, archive, fullPath, dest, w).actions ==>
      !a.DeleteFile? && !a.CopyDirectory? && !a.CopyFile? && !a.Symlink?
  {
    if |fullPath| > 0 {
      var destFilename := DestinationOf(dest, fullPath);
      var found := GetFile(root, fullPath[1..], w.windows, w.fuel);
      if found.result.Ok? && !Outside(w.relative(dest, destFilename)) {
        var file := At(found.root, found.result.value).value;
        assert !IsLink(file);
        if !IsDirectory(file) && IsFile(file) {
          var read := ReadFile(src, headerSize, fullPath[1..], file, archive, w.readFile);
          if read.Ok? {
            FileWritesDestination(destFilename, read.value, file.executable, w.windows);
          }
        }
      }
    }
  }

  /**
   * A file entry that reads back is written with exactly the bytes `ReadFileSync`
   * returns, and made executable exactly when it is marked so and the platform is not
   * Windows.
   */
  lemma FileWritten(root: Entry, done: seq<Action>, headerSize: int, src: string, archive: seq<byte>,
                    fullPath: string, dest: string, w: World)
    requires |fullPath| > 0
    requires var found := GetFile(root, fullPath[1..], w.windows, w.fuel);
      && found.result.Ok? && !Outside(w.relative(dest, DestinationOf(dest, fullPath)))
      && var file := At(found.root, found.result.value).value;
      && !IsDirectory(file) && !IsLink(file) && IsFile(file)
      && ReadFile(src, headerSize, fullPath[1..], file, archive, w.readFile).Ok?
    ensures var found := GetFile(root, fullPath[1..], w.windows, w.fuel);
      var file := At(found.root, found.result.value).value;
      var content := ReadFile(src, headerSize, fullPath[1..], file, archive, w.readFile).value;
      var step := ExtractEntry(root, done, headerSize, src, archive, fullPath, dest, w);
      && step.error.None?
      && step.actions[0] == WriteBytes(DestinationOf(dest, fullPath), content)
      && (SetPermission(DestinationOf(dest, fullPath), "755") in step.actions <==> file.executable == Some(true) && !w.windows)
      && |step.actions| <= 2
  {
  }
}
