/**
 * The reading side of `Filesystem`: `ListFiles`, which lists every node below the root
 * in the order the dictionaries enumerate them, and `GetNode`/`GetFile`, which follow a
 * path (and links) to a node.
 */
module FilesystemQueries {
  import opened Wrappers
  import opened Text
  import opened Paths
  import opened Entries
  import opened Tree
  import opened FilesystemSpec

  /** One line of `ListFiles`: the path, after its pack state when `isPack`. */
  function ListLine(full: string, node: Entry, isPack: bool): string {
    if !isPack then full
    else (if node.unpacked == Some(true) then "unpack" else "pack  ") + " : " + full
  }

  /**
   * `FillFilesFromMetadata(base, e)`: nothing below a non-directory; otherwise, child by
   * child, the child's line and then the child's own listing.
   */
  function Listing(base: string, e: Entry, isPack: bool): seq<string>
    decreases e, 1
  {
    if !IsDirectory(e) then [] else ListFrom(base, e, 0, isPack)
  }

  /** The listing of the children of `e` from the `i`-th on. */
  function ListFrom(base: string, e: Entry, i: nat, isPack: bool): seq<string>
    requires IsDirectory(e) && i <= |e.files.children|
    decreases e, 0, |e.files.children| - i
  {
    if i == |e.files.children| then []
    else
      var c := e.files.children[i];
      var full := ListingPath(base, c.name);
      [ListLine(full, c.node, isPack)] + Listing(full, c.node, isPack) + ListFrom(base, e, i + 1, isPack)
  }

  /** One child of the listing: its line, what lies below it, then the children after it. */
  lemma ListFromStep(base: string, e: Entry, i: nat, isPack: bool, acc: seq<string>)
    requires IsDirectory(e) && i < |e.files.children|
    ensures var c := e.files.children[i]; var full := ListingPath(base, c.name);
      acc + ListFrom(base, e, i, isPack)
      == acc + [ListLine(full, c.node, isPack)] + Listing(full, c.node, isPack) + ListFrom(base, e, i + 1, isPack)
  {
  }

  lemma ListFromEnd(base: string, e: Entry, isPack: bool, acc: seq<string>)
    requires IsDirectory(e)
    ensures acc + ListFrom(base, e, |e.files.children|, isPack) == acc
  {
    assert acc + [] == acc;
  }

  /** `ListFiles(isPack)`: the listing from the root, whose path is "/". */
  function ListFiles(root: Entry, isPack: bool): seq<string> {
    Listing("/", root, isPack)
  }

  /** A node below the root, with the names that lead to it. */
  datatype Listed = Listed(path: seq<string>, node: Entry)

  /** Every node below `e`, in pre-order: each child, then what lies below it. */
  function Nodes(e: Entry): seq<Listed>
    decreases e, 1
  {
    if !IsDirectory(e) then [] else NodesFrom(e, 0)
  }

  function NodesFrom(e: Entry, i: nat): seq<Listed>
    requires IsDirectory(e) && i <= |e.files.children|
    decreases e, 0, |e.files.children| - i
  {
    if i == |e.files.children| then [] else ChildNodes(e, i) + NodesFrom(e, i + 1)
  }

  /** The `i`-th child of `e` and every node below it. */
  function ChildNodes(e: Entry, i: nat): seq<Listed>
    requires IsDirectory(e) && i < |e.files.children|
    decreases e, 0, 0
  {
    var c := e.files.children[i];
    [Listed([c.name], c.node)] + Under(c.name, Nodes(c.node))
  }

  /** The nodes `ls`, seen from the parent of the child `n` they lie below. */
  function Under(n: string, ls: seq<Listed>): (r: seq<Listed>)
    ensures |r| == |ls|
    ensures forall j :: 0 <= j < |ls| ==> r[j] == Listed([n] + ls[j].path, ls[j].node)
  {
    if |ls| == 0 then [] else [Listed([n] + ls[0].path, ls[0].node)] + Under(n, ls[1..])
  }

  /** The text `ListFiles` builds for the path `q` below `base`. */
  function PathText(base: string, q: seq<string>): string
    decreases |q|
  {
    if |q| == 0 then base else PathText(ListingPath(base, q[0]), q[1..])
  }

  /** The lines for the nodes `ls`, below `base`. */
  function Lines(base: string, ls: seq<Listed>, isPack: bool): (r: seq<string>)
    ensures |r| == |ls|
    ensures forall j :: 0 <= j < |ls| ==> r[j] == ListLine(PathText(base, ls[j].path), ls[j].node, isPack)
  {
    if |ls| == 0 then [] else [ListLine(PathText(base, ls[0].path), ls[0].node, isPack)] + Lines(base, ls[1..], isPack)
  }

  lemma LinesAppend(base: string, a: seq<Listed>, b: seq<Listed>, isPack: bool)
    ensures Lines(base, a + b, isPack) == Lines(base, a, isPack) + Lines(base, b, isPack)
  {
    var l, r := Lines(base, a + b, isPack), Lines(base, a, isPack) + Lines(base, b, isPack);
    forall j | 0 <= j < |l|
      ensures l[j] == r[j]
    {
      if j < |a| {
        assert (a + b)[j] == a[j];
      } else {
        assert (a + b)[j] == b[j - |a|];
      }
    }
  }

  lemma LinesUnder(base: string, n: string, ls: seq<Listed>, isPack: bool)
    ensures Lines(base, Under(n, ls), isPack) == Lines(ListingPath(base, n), ls, isPack)
  {
    var l, r := Lines(base, Under(n, ls), isPack), Lines(ListingPath(base, n), ls, isPack);
    forall j | 0 <= j < |l|
      ensures l[j] == r[j]
    {
      assert ([n] + ls[j].path)[1..] == ls[j].path;
    }
  }

  /** The listing is one line per node, in pre-order: the node's path text and pack state. */
  lemma {:induction false} ListingLines(base: string, e: Entry, isPack: bool)
    ensures Listing(base, e, isPack) == Lines(base, Nodes(e), isPack)
    decreases e, 1
  {
    if IsDirectory(e) {
      ListFromLines(base, e, 0, isPack);
    }
  }

  lemma {:induction false} ListFromLines(base: string, e: Entry, i: nat, isPack: bool)
    requires IsDirectory(e) && i <= |e.files.children|
    ensures ListFrom(base, e, i, isPack) == Lines(base, NodesFrom(e, i), isPack)
    decreases e, 0, |e.files.children| - i
  {
    if i < |e.files.children| {
      var c := e.files.children[i];
      var full := ListingPath(base, c.name);
      ListingLines(full, c.node, isPack);
      ListFromLines(base, e, i + 1, isPack);
      LinesUnder(base, c.name, Nodes(c.node), isPack);
      LinesAppend(base, ChildNodes(e, i), NodesFrom(e, i + 1), isPack);
      LinesAppend(base, [Listed([c.name], c.node)], Under(c.name, Nodes(c.node)), isPack);
      assert PathText(base, [c.name]) == full by {
        assert [c.name][1..] == [];
      }
    }
  }

  /** Every directory's names are distinct, all the way down: what dictionaries guarantee. */
  predicate WellKeyed(e: Entry)
    decreases e
  {
    IsDirectory(e) ==>
      && Keyed(e.files.children)
      && forall i :: 0 <= i < |e.files.children| ==> WellKeyed(e.files.children[i].node)
  }

  lemma InUnder(n: string, ls: seq<Listed>, l: Listed)
    requires l in Under(n, ls)
    ensures exists m :: m in ls && l == Listed([n] + m.path, m.node)
  {
    var j :| 0 <= j < |Under(n, ls)| && Under(n, ls)[j] == l;
    assert ls[j] in ls;
  }

  /** Each listed path leads from `e` to its node, and none is empty. */
  lemma {:induction false} NodesAt(e: Entry)
    requires WellKeyed(e)
    ensures forall l :: l in Nodes(e) ==> |l.path| > 0 && At(e, l.path) == Some(l.node)
    decreases e, 1
  {
    if IsDirectory(e) {
      NodesFromAt(e, 0);
    }
  }

  lemma {:induction false} NodesFromAt(e: Entry, i: nat)
    requires WellKeyed(e) && IsDirectory(e) && i <= |e.files.children|
    ensures forall l :: l in NodesFrom(e, i) ==> |l.path| > 0 && At(e, l.path) == Some(l.node)
    decreases e, 0, |e.files.children| - i
  {
    if i < |e.files.children| {
      var cs := e.files.children;
      var c := cs[i];
      FindKeyed(cs, i);
      assert At(e, [c.name]) == Some(c.node) by {
        assert [c.name][1..] == [];
      }
      NodesAt(c.node);
      NodesFromAt(e, i + 1);
      forall l | l in Under(c.name, Nodes(c.node))
        ensures |l.path| > 0 && At(e, l.path) == Some(l.node)
      {
        InUnder(c.name, Nodes(c.node), l);
        var m :| m in Nodes(c.node) && l == Listed([c.name] + m.path, m.node);
        assert l.path[0] == c.name && l.path[1..] == m.path;
      }
    }
  }

  /** The children of `e` from the `i`-th on, and all below them, are listed from `i` on. */
  lemma {:induction false} NodesFromLater(e: Entry, i: nat, k: nat)
    requires IsDirectory(e) && i <= k <= |e.files.children|
    ensures forall l :: l in NodesFrom(e, k) ==> l in NodesFrom(e, i)
    decreases k - i
  {
    if i < k {
      NodesFromLater(e, i + 1, k);
    }
  }

  /** Every node below `e` is listed. */
  lemma {:induction false} NodesComplete(e: Entry, q: seq<string>)
    requires |q| > 0 && At(e, q).Some?
    ensures exists l :: l in Nodes(e) && l.path == q && l.node == At(e, q).value
    decreases e
  {
    var cs := e.files.children;
    var k := Find(cs, q[0]).value;
    var c := cs[k];
    NodesFromLater(e, 0, k);
    if |q| == 1 {
      assert Listed([c.name], c.node) in NodesFrom(e, k);
      assert [c.name] == q;
    } else {
      assert c in cs;
      NodesComplete(c.node, q[1..]);
      var m :| m in Nodes(c.node) && m.path == q[1..] && m.node == At(c.node, q[1..]).value;
      ChildListsBelow(e, k, m);
      assert [c.name] + q[1..] == q;
    }
  }

  /** A node listed below the `k`-th child is listed from `k` on, behind the child's name. */
  lemma ChildListsBelow(e: Entry, k: nat, m: Listed)
    requires IsDirectory(e) && k < |e.files.children| && m in Nodes(e.files.children[k].node)
    ensures Listed([e.files.children[k].name] + m.path, m.node) in NodesFrom(e, k)
  {
    var c := e.files.children[k];
    var j :| 0 <= j < |Nodes(c.node)| && Nodes(c.node)[j] == m;
    assert Under(c.name, Nodes(c.node))[j] in ChildNodes(e, k);
  }

  /** No path is listed twice. */
  predicate DistinctPaths(ls: seq<Listed>) {
    forall a, b :: 0 <= a < b < |ls| ==> ls[a].path != ls[b].path
  }

  lemma DistinctAppend(x: seq<Listed>, y: seq<Listed>)
    requires DistinctPaths(x) && DistinctPaths(y)
    requires forall l, m :: l in x && m in y ==> l.path != m.path
    ensures DistinctPaths(x + y)
  {
    forall a, b | 0 <= a < b < |x + y|
      ensures (x + y)[a].path != (x + y)[b].path
    {
      if b < |x| {
        assert (x + y)[a] == x[a] && (x + y)[b] == x[b];
      } else if a >= |x| {
        assert (x + y)[a] == y[a - |x|] && (x + y)[b] == y[b - |x|];
      } else {
        assert (x + y)[a] in x && (x + y)[b] in y;
      }
    }
  }

  /** The first names of the nodes listed from the `i`-th child on are those children's names. */
  lemma {:induction false} NodesFromHeads(e: Entry, i: nat)
    requires IsDirectory(e) && i <= |e.files.children|
    ensures forall l :: l in NodesFrom(e, i) ==>
      |l.path| > 0 && exists k :: i <= k < |e.files.children| && l.path[0] == e.files.children[k].name
    decreases |e.files.children| - i
  {
    if i < |e.files.children| {
      var c := e.files.children[i];
      NodesFromHeads(e, i + 1);
      forall l | l in Under(c.name, Nodes(c.node))
        ensures |l.path| > 0 && l.path[0] == c.name
      {
        InUnder(c.name, Nodes(c.node), l);
      }
    }
  }

  /** In a tree whose directories have distinct names, every node is listed exactly once. */
  lemma {:induction false} NodesDistinct(e: Entry)
    requires WellKeyed(e)
    ensures DistinctPaths(Nodes(e))
    decreases e, 1
  {
    if IsDirectory(e) {
      NodesFromDistinct(e, 0);
    }
  }

  lemma UnderDistinct(n: string, ls: seq<Listed>)
    requires DistinctPaths(ls)
    ensures DistinctPaths(Under(n, ls))
  {
    var u := Under(n, ls);
    forall a, b | 0 <= a < b < |u|
      ensures u[a].path != u[b].path
    {
      assert u[a].path[1..] == ls[a].path;
      assert u[b].path[1..] == ls[b].path;
    }
  }

  /** A node listed below the child `n` has a path of two names at least, the first `n`. */
  lemma UnderPath(n: string, ls: seq<Listed>, l: Listed)
    requires l in Under(n, ls) && forall m :: m in ls ==> |m.path| > 0
    ensures |l.path| > 1 && l.path[0] == n
  {
    InUnder(n, ls, l);
  }

  /** The `i`-th child and the nodes below it: distinct paths, all starting with its name. */
  lemma {:induction false} ChildDistinct(e: Entry, i: nat)
    requires WellKeyed(e) && IsDirectory(e) && i < |e.files.children|
    ensures DistinctPaths(ChildNodes(e, i))
    decreases e, 0, 0
  {
    var c := e.files.children[i];
    var head := [Listed([c.name], c.node)];
    var below := Under(c.name, Nodes(c.node));
    assert c in e.files.children;
    NodesDistinct(c.node);
    UnderDistinct(c.name, Nodes(c.node));
    ChildHeads(e, i);
    DistinctAppend(head, below);
  }

  /** Every path in `ChildNodes(e, i)` starts with the child's name; only the first is one name long. */
  lemma ChildHeads(e: Entry, i: nat)
    requires IsDirectory(e) && i < |e.files.children|
    ensures forall l :: l in ChildNodes(e, i) ==> |l.path| > 0 && l.path[0] == e.files.children[i].name
    ensures forall l :: l in Under(e.files.children[i].name, Nodes(e.files.children[i].node)) ==> |l.path| > 1
  {
    var c := e.files.children[i];
    if IsDirectory(c.node) {
      NodesFromHeads(c.node, 0);
    }
    forall l | l in Under(c.name, Nodes(c.node))
      ensures |l.path| > 1 && l.path[0] == c.name
    {
      UnderPath(c.name, Nodes(c.node), l);
    }
  }

  /** Nodes below different children of a directory with distinct names have different paths. */
  lemma PartsApart(e: Entry, i: nat)
    requires IsDirectory(e) && i < |e.files.children| && Keyed(e.files.children)
    ensures forall l, m :: l in ChildNodes(e, i) && m in NodesFrom(e, i + 1) ==> l.path != m.path
  {
    var cs := e.files.children;
    ChildHeads(e, i);
    NodesFromHeads(e, i + 1);
    forall l, m | l in ChildNodes(e, i) && m in NodesFrom(e, i + 1)
      ensures l.path != m.path
    {
      var k :| i + 1 <= k < |cs| && m.path[0] == cs[k].name;
      assert cs[i].name != cs[k].name;
    }
  }

  lemma {:induction false} NodesFromDistinct(e: Entry, i: nat)
    requires WellKeyed(e) && IsDirectory(e) && i <= |e.files.children|
    ensures DistinctPaths(NodesFrom(e, i))
    decreases e, 0, |e.files.children| - i
  {
    if i < |e.files.children| {
      ChildDistinct(e, i);
      NodesFromDistinct(e, i + 1);
      PartsApart(e, i);
      DistinctAppend(ChildNodes(e, i), NodesFrom(e, i + 1));
    }
  }

  /** Every node below the root is listed, and listed once. */
  lemma ListFilesExactlyOnce(root: Entry, isPack: bool, q: seq<string>)
    requires WellKeyed(root)
    ensures ListFiles(root, isPack) == Lines("/", Nodes(root), isPack)
    ensures (exists j :: 0 <= j < |Nodes(root)| && Nodes(root)[j].path == q) <==> |q| > 0 && At(root, q).Some?
    ensures DistinctPaths(Nodes(root))
  {
    ListingLines("/", root, isPack);
    NodesAt(root);
    NodesDistinct(root);
    if |q| > 0 && At(root, q).Some? {
      NodesComplete(root, q);
    }
  }

  /** Below a path other than the root, the listing joins the names with "/". */
  lemma {:induction false} PathTextBelow(base: string, q: seq<string>)
    requires |base| >= 1 && SEP !in base && VOLUME_SEP !in base && base[|base| - 1] != ALT_SEP
    requires |q| >= 1 && forall i :: 0 <= i < |q| ==> Reachable(q[i])
    ensures PathText(base, q) == base + [ALT_SEP] + Join(q, ALT_SEP)
    decreases |q|
  {
    var b := NameAppended(base, q[0], false);
    assert PathText(base, q) == PathText(b, q[1..]);
    if |q| == 1 {
      assert PathText(b, q[1..]) == b by {
        assert q[1..] == [];
      }
    } else {
      var rest := Join(q[1..], ALT_SEP);
      assert PathText(b, q[1..]) == b + [ALT_SEP] + rest by {
        PathTextBelow(b, q[1..]);
      }
      Regroup(base, q[0], rest);
    }
  }

  lemma RegroupRoot(n: string, rest: string)
    ensures ([ALT_SEP] + n) + [ALT_SEP] + rest == [ALT_SEP] + (n + [ALT_SEP] + rest)
  {
  }

  lemma Regroup(x: string, n: string, rest: string)
    ensures (x + [ALT_SEP] + n) + [ALT_SEP] + rest == x + [ALT_SEP] + (n + [ALT_SEP] + rest)
  {
  }

  /** One step of `PathText`: the base with the name appended, still free of `\\` and `:`. */
  lemma NameAppended(base: string, n: string, atRoot: bool) returns (b: string)
    requires |base| >= 1 && SEP !in base && VOLUME_SEP !in base && Reachable(n)
    requires atRoot <==> base[|base| - 1] == ALT_SEP
    ensures b == ListingPath(base, n)
    ensures b == if atRoot then base + n else base + [ALT_SEP] + n
    ensures |b| >= 1 && SEP !in b && VOLUME_SEP !in b && b[|b| - 1] != ALT_SEP
  {
    ListingPathJoins(base, n);
    b := ListingPath(base, n);
    assert b[|b| - 1] == n[|n| - 1];
    assert !IsNameStop(n[|n| - 1]);
  }

  /** From the root, a listed path is "/" and the names joined with "/". */
  lemma PathTextRoot(q: seq<string>)
    requires |q| >= 1 && forall i :: 0 <= i < |q| ==> Reachable(q[i])
    ensures PathText([ALT_SEP], q) == [ALT_SEP] + Join(q, ALT_SEP)
  {
    PathTextFrom([ALT_SEP], q);
  }

  /** `PathTextRoot` for a root text held in a variable. */
  lemma PathTextFrom(root: string, q: seq<string>)
    requires root == [ALT_SEP]
    requires |q| >= 1 && forall i :: 0 <= i < |q| ==> Reachable(q[i])
    ensures PathText(root, q) == root + Join(q, ALT_SEP)
  {
    var atRoot := true;
    var b := NameAppended(root, q[0], atRoot);
    assert PathText(root, q) == PathText(b, q[1..]);
    if |q| == 1 {
      assert PathText(b, q[1..]) == b by {
        assert q[1..] == [];
      }
    } else {
      var rest := Join(q[1..], ALT_SEP);
      assert PathText(b, q[1..]) == b + [ALT_SEP] + rest by {
        PathTextBelow(b, q[1..]);
      }
      RegroupRoot(q[0], rest);
    }
  }

  /** What a lookup leaves: the tree, which lookups may extend, and the result. */
  datatype Outcome<T> = Outcome(root: Entry, result: Result<T, FsError>)

  /**
   * `GetNode(p, followLinks)`: walk to the directory part (creating missing directories),
   * follow that node's link with the name appended if it is a link, and otherwise answer
   * its child named by the last part, `null` when there is no such child, or the node
   * itself when the last part is empty. Each link followed uses one unit of `fuel`.
   */
  function GetNode(root: Entry, p: string, followLinks: bool, fuel: nat): (r: Outcome<Option<seq<string>>>)
    ensures r.result.Ok? && r.result.value.Some? ==> At(r.root, r.result.value.value).Some?
    decreases fuel, 1
  {
    var p' := NormalizeSeparators(p);
    var segs := Segments(GetDirectoryName(p'));
    match WalkFrom(root, [], segs)
    case Err(e) => Outcome(root, Err(e))
    case Ok(w) =>
      WalkEnds(root, [], segs);
      NodeAt(w.root, w.path, GetFileName(p'), followLinks, fuel)
  }

  /** The second half of `GetNode`, once the directory part has been reached at `at`. */
  function NodeAt(root: Entry, at: seq<string>, name: string, followLinks: bool, fuel: nat): (r: Outcome<Option<seq<string>>>)
    requires At(root, at).Some?
    ensures r.result.Ok? && r.result.value.Some? ==> At(r.root, r.result.value.value).Some?
    decreases fuel, 0
  {
    var node := At(root, at).value;
    if IsLink(node) && followLinks then
      if fuel == 0 then Outcome(root, Err(LinkDepth))
      else GetNode(root, Combine(node.link.value, name), true, fuel - 1)
    else if name != "" then
      if IsDirectory(node) && Lookup(node.files.children, name).Some? then
        AtAppend(root, at, [name]);
        Outcome(root, Ok(Some(at + [name])))
      else
        Outcome(root, Ok(None))
    else
      Outcome(root, Ok(Some(at)))
  }

  /**
   * `GetFile(p, followLinks)`: `GetNode`, throwing when it finds nothing, and following a
   * link the found node holds when `followLinks`.
   */
  function GetFile(root: Entry, p: string, followLinks: bool, fuel: nat): (r: Outcome<seq<string>>)
    ensures r.result.Ok? ==> At(r.root, r.result.value).Some?
    ensures r.result.Ok? && followLinks ==> !IsLink(At(r.root, r.result.value).value)
    decreases fuel
  {
    var g := GetNode(root, p, followLinks, fuel);
    match g.result
    case Err(e) => Outcome(g.root, Err(e))
    case Ok(None) => Outcome(g.root, Err(NotFound))
    case Ok(Some(q)) =>
      var info := At(g.root, q).value;
      if IsLink(info) && followLinks then
        if fuel == 0 then Outcome(g.root, Err(LinkDepth))
        else GetFile(g.root, info.link.value, followLinks, fuel - 1)
      else
        Outcome(g.root, Ok(q))
  }

  /** `GetFile` once `GetNode` has answered. */
  lemma GetFileFails(root: Entry, p: string, followLinks: bool, fuel: nat)
    requires GetNode(root, p, followLinks, fuel).result.Err?
    ensures var g := GetNode(root, p, followLinks, fuel);
      GetFile(root, p, followLinks, fuel) == Outcome(g.root, Err(g.result.error))
  {
  }

  lemma GetFileNothing(root: Entry, p: string, followLinks: bool, fuel: nat)
    requires GetNode(root, p, followLinks, fuel).result == Ok(None)
    ensures GetFile(root, p, followLinks, fuel) == Outcome(GetNode(root, p, followLinks, fuel).root, Err(NotFound))
  {
  }

  lemma GetFileFound(root: Entry, p: string, followLinks: bool, fuel: nat, after: Entry, at: seq<string>)
    requires GetNode(root, p, followLinks, fuel) == Outcome(after, Ok(Some(at)))
    ensures At(after, at).Some?
    ensures GetFile(root, p, followLinks, fuel) == FileAt(after, at, followLinks, fuel)
  {
  }

  /** The end of `GetFile` once `GetNode` has found the node at `at`: a link is followed when `followLinks`. */
  function FileAt(root: Entry, at: seq<string>, followLinks: bool, fuel: nat): Outcome<seq<string>>
    requires At(root, at).Some?
  {
    var node := At(root, at).value;
    if !(IsLink(node) && followLinks) then Outcome(root, Ok(at))
    else if fuel == 0 then Outcome(root, Err(LinkDepth))
    else GetFile(root, node.link.value, followLinks, fuel - 1)
  }

  /** A lookup only adds directories: every node is still where it was, with the same fields. */
  lemma {:induction false} GetNodeKeeps(root: Entry, p: string, followLinks: bool, fuel: nat, q: seq<string>)
    requires At(root, q).Some?
    ensures KeptAt(root, GetNode(root, p, followLinks, fuel).root, q)
    decreases fuel, 1
  {
    var p' := NormalizeSeparators(p);
    var segs := Segments(GetDirectoryName(p'));
    if WalkFrom(root, [], segs).Ok? {
      var w := WalkFrom(root, [], segs).value;
      WalkEnds(root, [], segs);
      WalkExtends(root, [], segs);
      assert At(w.root, q).Some? && Keeps(At(root, q).value, At(w.root, q).value);
      NodeAtKeeps(w.root, w.path, GetFileName(p'), followLinks, fuel, q);
    }
  }

  lemma {:induction false} NodeAtKeeps(root: Entry, at: seq<string>, name: string, followLinks: bool, fuel: nat, q: seq<string>)
    requires At(root, at).Some? && At(root, q).Some?
    ensures KeptAt(root, NodeAt(root, at, name, followLinks, fuel).root, q)
    decreases fuel, 0
  {
    var node := At(root, at).value;
    if IsLink(node) && followLinks && fuel > 0 {
      LinkKeeps(root, at, name, followLinks, fuel, q);
    } else {
      NodeAtStays(root, at, name, followLinks, fuel, q);
    }
  }

  /** What the lookup through a link keeps, `NodeAt` keeps. */
  lemma {:induction false} LinkKeeps(root: Entry, at: seq<string>, name: string, followLinks: bool, fuel: nat, q: seq<string>)
    requires At(root, at).Some? && IsLink(At(root, at).value) && followLinks && fuel > 0 && At(root, q).Some?
    ensures KeptAt(root, NodeAt(root, at, name, followLinks, fuel).root, q)
    decreases fuel - 1, 2
  {
    var t, f := Combine(At(root, at).value.link.value, name), fuel - 1;
    GetNodeKeeps(root, t, followLinks, f, q);
    NodeAtLink(root, at, name, followLinks, fuel, f);
  }


  lemma {:induction false} NodeAtLink(root: Entry, at: seq<string>, name: string, followLinks: bool, fuel: nat, f: nat)
    requires At(root, at).Some? && IsLink(At(root, at).value) && followLinks && fuel > 0 && f == fuel - 1
    ensures NodeAt(root, at, name, followLinks, fuel) == GetNode(root, Combine(At(root, at).value.link.value, name), followLinks, f)
  {
    var node := At(root, at).value;
    assert IsLink(node) && followLinks && fuel != 0;
  }

  /** `GetNode` is the directory walk followed by `NodeAt`. */
  lemma GetNodeWalks(root: Entry, p: string, followLinks: bool, fuel: nat)
    ensures var walk := WalkFrom(root, [], Segments(GetDirectoryName(NormalizeSeparators(p))));
      walk.Err? ==> GetNode(root, p, followLinks, fuel) == Outcome(root, Err(walk.error))
    ensures var walk := WalkFrom(root, [], Segments(GetDirectoryName(NormalizeSeparators(p))));
      walk.Ok? ==> (At(walk.value.root, walk.value.path).Some? &&
        GetNode(root, p, followLinks, fuel) == NodeAt(walk.value.root, walk.value.path, GetFileName(NormalizeSeparators(p)), followLinks, fuel))
  {
    var segs := Segments(GetDirectoryName(NormalizeSeparators(p)));
    if WalkFrom(root, [], segs).Ok? {
      WalkEnds(root, [], segs);
    }
  }

  lemma NodeAtEnds(root: Entry, at: seq<string>, name: string, followLinks: bool, fuel: nat)
    requires At(root, at).Some? && !(IsLink(At(root, at).value) && followLinks && fuel > 0)
    ensures var node := At(root, at).value;
      NodeAt(root, at, name, followLinks, fuel) == Outcome(root,
        if IsLink(node) && followLinks then Err(LinkDepth)
        else if name == "" then Ok(Some(at))
        else if IsDirectory(node) && Lookup(node.files.children, name).Some? then Ok(Some(at + [name]))
        else Ok(None))
  {
  }

  /** Without a link to follow, `NodeAt` leaves the tree as it is. */
  lemma NodeAtStays(root: Entry, at: seq<string>, name: string, followLinks: bool, fuel: nat, q: seq<string>)
    requires At(root, at).Some? && !(IsLink(At(root, at).value) && followLinks && fuel > 0) && At(root, q).Some?
    ensures NodeAt(root, at, name, followLinks, fuel).root == root
    ensures KeptAt(root, NodeAt(root, at, name, followLinks, fuel).root, q)
  {
  }

  /** Hence the tree after the lookup extends the one before. */
  lemma GetNodeExtends(root: Entry, p: string, followLinks: bool, fuel: nat)
    ensures Extends(root, GetNode(root, p, followLinks, fuel).root)
  {
    forall q | At(root, q).Some?
      ensures KeptAt(root, GetNode(root, p, followLinks, fuel).root, q)
    {
      GetNodeKeeps(root, p, followLinks, fuel, q);
    }
  }

  /** The text `ListFiles` shows for a path, without its leading "/", as the extractor uses it. */
  function ListedName(q: seq<string>): string {
    var t := PathText("/", q);
    if |t| == 0 then t else t[1..]
  }

  /**
   * Looking up a listed path, after dropping its leading "/", finds the node and changes
   * nothing, provided its directory is not a link and every name on the way is one the
   * walk follows.
   */
  lemma GetNodeFindsListed(root: Entry, q: seq<string>, followLinks: bool, fuel: nat)
    requires |q| >= 1 && At(root, q).Some? && forall i :: 0 <= i < |q| ==> Reachable(q[i])
    requires At(root, q[..|q| - 1]).Some? && !IsLink(At(root, q[..|q| - 1]).value)
    ensures GetNode(root, ListedName(q), followLinks, fuel) == Outcome(root, Ok(Some(q)))
  {
    var dir := q[..|q| - 1];
    var last := q[|q| - 1];
    AtAppend(root, dir, [last]);
    assert dir + [last] == q;
    ListedNameJoins(q);
    NormalizeJoin(q);
    JoinedPath(q);
    assert [] + dir == dir;
    WalkExisting(root, [], Segments(GetDirectoryName(Join(q, SEP))));
  }

  lemma ListedNameJoins(q: seq<string>)
    requires |q| >= 1 && forall i :: 0 <= i < |q| ==> Reachable(q[i])
    ensures ListedName(q) == Join(q, ALT_SEP)
  {
    PathTextRoot(q);
    assert [ALT_SEP] == "/";
  }

  /** So does `GetFile`, when the node itself is not a link either. */
  lemma GetFileFindsListed(root: Entry, q: seq<string>, followLinks: bool, fuel: nat)
    requires |q| >= 1 && At(root, q).Some? && forall i :: 0 <= i < |q| ==> Reachable(q[i])
    requires At(root, q[..|q| - 1]).Some? && !IsLink(At(root, q[..|q| - 1]).value) && !IsLink(At(root, q).value)
    ensures GetFile(root, ListedName(q), followLinks, fuel) == Outcome(root, Ok(q))
  {
    GetNodeFindsListed(root, q, followLinks, fuel);
  }

  /** A name missing from an existing directory: `GetNode` answers `null`, `GetFile` throws. */
  lemma GetFileMissing(root: Entry, q: seq<string>, followLinks: bool, fuel: nat)
    requires |q| >= 1 && At(root, q).None? && forall i :: 0 <= i < |q| ==> Reachable(q[i])
    requires At(root, q[..|q| - 1]).Some? && !IsLink(At(root, q[..|q| - 1]).value)
    ensures GetNode(root, ListedName(q), followLinks, fuel) == Outcome(root, Ok(None))
    ensures GetFile(root, ListedName(q), followLinks, fuel) == Outcome(root, Err(NotFound))
  {
    var dir := q[..|q| - 1];
    var last := q[|q| - 1];
    AtAppend(root, dir, [last]);
    assert dir + [last] == q;
    ListedNameJoins(q);
    NormalizeJoin(q);
    JoinedPath(q);
    assert [] + dir == dir;
    WalkExisting(root, [], Segments(GetDirectoryName(Join(q, SEP))));
  }
}
