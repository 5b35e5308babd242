/**
 * `FilesystemEntry`: a node of the archive header. What a node is depends only on which
 * of its optional fields are set: `files` makes it a directory, `size` a file, `link` a
 * link. The children of a directory are a dictionary enumerated in insertion order,
 * modelled as a sequence of named children.
 */
module Entries {
  import opened Wrappers
  import opened Integrity

  /** The `Files` dictionary of a node, or `null`. */
  datatype Table = NoTable | Table(children: seq<Child>)

  datatype Entry = Entry(
    files: Table,
    executable: Option<bool>,
    size: Option<int>,
    offset: Option<string>,
    unpacked: Option<bool>,
    integrity: Option<FileIntegrity>,
    link: Option<string>)

  datatype Child = Child(name: string, node: Entry)

  predicate IsDirectory(e: Entry) { e.files.Table? }
  predicate IsFile(e: Entry) { e.size.Some? }
  predicate IsLink(e: Entry) { e.link.Some? }

  /** Newtonsoft writes `unpacked` only when this holds. */
  predicate ShouldSerializeUnpacked(e: Entry) { e.unpacked == Some(true) }

  /** `new FilesystemEntry()`: every field unset. */
  function Blank(): (e: Entry)
    ensures !IsDirectory(e) && !IsFile(e) && !IsLink(e)
  {
    Entry(NoTable, None, None, None, None, None, None)
  }

  /** `new FilesystemEntry { Files = new Dictionary<...>() }`. */
  function EmptyDirectory(): (e: Entry)
    ensures IsDirectory(e) && e.files == Table([]) && !IsFile(e) && !IsLink(e)
  {
    Blank().(files := Table([]))
  }

  /** The JSON properties of a node ("files", "executable", ..., "link"). */
  datatype Property = FilesProp | ExecutableProp | SizeProp | OffsetProp | UnpackedProp | IntegrityProp | LinkProp

  /** The properties of a node in the order `FilesystemEntry` declares them. */
  const DeclaredProperties: seq<Property> :=
    [FilesProp, ExecutableProp, SizeProp, OffsetProp, UnpackedProp, IntegrityProp, LinkProp]

  /**
   * Whether the header JSON holds property `p` for a node under `NullValueHandling.Ignore`:
   * a set value is written, except `unpacked`, which `ShouldSerializeUnpacked` keeps only when true.
   */
  predicate Emitted(e: Entry, p: Property) {
    match p
    case FilesProp => e.files.Table?
    case ExecutableProp => e.executable.Some?
    case SizeProp => e.size.Some?
    case OffsetProp => e.offset.Some?
    case UnpackedProp => ShouldSerializeUnpacked(e)
    case IntegrityProp => e.integrity.Some?
    case LinkProp => e.link.Some?
  }

  /** The properties of `ps` that are written for `e`, in the order of `ps`. */
  function Select(e: Entry, ps: seq<Property>): (r: seq<Property>)
    ensures forall q :: q in r <==> q in ps && Emitted(e, q)
    ensures |r| <= |ps|
  {
    if |ps| == 0 then [] else (if Emitted(e, ps[0]) then [ps[0]] else []) + Select(e, ps[1..])
  }

  /** The properties the header JSON holds for a node, in declaration order. */
  function EmittedFields(e: Entry): (r: seq<Property>)
    ensures UnpackedProp in r <==> e.unpacked == Some(true)
    ensures FilesProp in r <==> IsDirectory(e)
    ensures SizeProp in r <==> IsFile(e)
    ensures LinkProp in r <==> IsLink(e)
  {
    Select(e, DeclaredProperties)
  }

  function Names(cs: seq<Child>): (r: seq<string>)
    ensures |r| == |cs| && forall i :: 0 <= i < |cs| ==> r[i] == cs[i].name
  {
    if |cs| == 0 then [] else [cs[0].name] + Names(cs[1..])
  }

  /** No two children share a name: what a dictionary guarantees. */
  predicate Keyed(cs: seq<Child>) {
    forall i, j :: 0 <= i < j < |cs| ==> cs[i].name != cs[j].name
  }

  /** The position of the child called `n`, if any. */
  function Find(cs: seq<Child>, n: string): (r: Option<nat>)
    ensures r.Some? ==> r.value < |cs| && cs[r.value].name == n
    ensures r.Some? ==> forall j :: 0 <= j < r.value ==> cs[j].name != n
    ensures r.None? ==> forall j :: 0 <= j < |cs| ==> cs[j].name != n
  {
    if |cs| == 0 then None
    else if cs[0].name == n then Some(0)
    else match Find(cs[1..], n)
      case None => None
      case Some(k) => Some(k + 1)
  }

  /** `Files.TryGetValue(n, out entry)`. */
  function Lookup(cs: seq<Child>, n: string): Option<Entry> {
    match Find(cs, n)
    case None => None
    case Some(k) => Some(cs[k].node)
  }

  /**
   * `Files[n] = e`: an existing key keeps its place in the enumeration order and takes the
   * new value; a new key goes last.
   */
  function Put(cs: seq<Child>, n: string, e: Entry): (r: seq<Child>)
    ensures Find(cs, n).Some? ==> Names(r) == Names(cs)
    ensures Find(cs, n).None? ==> Names(r) == Names(cs) + [n]
  {
    match Find(cs, n)
    case None => cs + [Child(n, e)]
    case Some(k) => cs[k := Child(n, e)]
  }

  /** After `Files[n] = e`, `n` holds `e` and every other key holds what it held. */
  lemma PutLookup(cs: seq<Child>, n: string, e: Entry, m: string)
    ensures Lookup(Put(cs, n, e), m) == if m == n then Some(e) else Lookup(cs, m)
  {
    var r := Put(cs, n, e);
    match Find(cs, n)
    case None =>
      assert r[|cs|].name == n;
      if m != n {
        FindSame(cs, r, m);
      }
    case Some(k) =>
      FindSame(cs, r, m);
  }

  /** Two child lists with the same names find every name at the same place. */
  lemma {:induction false} FindSameNames(a: seq<Child>, b: seq<Child>, m: string)
    requires Names(a) == Names(b)
    ensures Find(a, m) == Find(b, m)
  {
    if |a| > 0 {
      assert a[0].name == b[0].name;
      assert Names(a[1..]) == Names(b[1..]) by {
        assert Names(a[1..]) == Names(a)[1..];
        assert Names(b[1..]) == Names(b)[1..];
      }
      FindSameNames(a[1..], b[1..], m);
    }
  }

  /** A name that `Put` did not add is found where it was. */
  lemma FindSame(cs: seq<Child>, r: seq<Child>, m: string)
    requires Names(r) == Names(cs) || (|r| == |cs| + 1 && r[..|cs|] == cs && r[|cs|].name != m)
    ensures Find(r, m) == Find(cs, m)
  {
    if Names(r) == Names(cs) {
      FindSameNames(cs, r, m);
    } else {
      FindPrefix(cs, r, m);
    }
  }

  lemma {:induction false} FindPrefix(cs: seq<Child>, r: seq<Child>, m: string)
    requires |r| == |cs| + 1 && r[..|cs|] == cs && r[|cs|].name != m
    ensures Find(r, m) == Find(cs, m)
  {
    if |cs| > 0 {
      assert r[0] == cs[0];
      assert r[1..][..|cs| - 1] == cs[1..];
      FindPrefix(cs[1..], r[1..], m);
    }
  }

  /** `Put` keeps the keys distinct. */
  lemma PutKeyed(cs: seq<Child>, n: string, e: Entry)
    requires Keyed(cs)
    ensures Keyed(Put(cs, n, e))
  {
    var r := Put(cs, n, e);
    assert Names(r) == Names(cs) || Names(r) == Names(cs) + [n];
    forall i, j | 0 <= i < j < |r|
      ensures r[i].name != r[j].name
    {
      assert r[i].name == Names(r)[i] && r[j].name == Names(r)[j];
    }
  }

  /** In a keyed list the child called `n` is where `Find` says. */
  lemma FindKeyed(cs: seq<Child>, k: nat)
    requires Keyed(cs) && k < |cs|
    ensures Find(cs, cs[k].name) == Some(k)
  {
  }
}
