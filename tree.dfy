/**
 * Navigation in the archive header tree. A node is named by the path of child names that
 * leads to it from the root, so the C# habit of holding a reference to a node and
 * changing it in place becomes "replace the node at this path". `WalkFrom` is the
 * segment loop of `Filesystem.SearchNodeFromDirectory`.
 */
module Tree {
  import opened Wrappers
  import opened Entries
  import opened Paths

  /** The node at `path` below `e`, if every step finds a directory holding the next name. */
  function At(e: Entry, path: seq<string>): Option<Entry>
    decreases |path|
  {
    if |path| == 0 then Some(e)
    else if e.files.NoTable? then None
    else match Lookup(e.files.children, path[0])
      case None => None
      case Some(c) => At(c, path[1..])
  }

  /** `e` with the node at `path` replaced by `x`; the names along the path keep their places. */
  function Replace(e: Entry, path: seq<string>, x: Entry): Entry
    requires At(e, path).Some?
    decreases |path|
  {
    if |path| == 0 then x
    else
      var cs := e.files.children;
      var c := Lookup(cs, path[0]).value;
      e.(files := Table(Put(cs, path[0], Replace(c, path[1..], x))))
  }

  /** Walking `p` and then `q` is walking `p + q`. */
  lemma {:induction false} AtAppend(e: Entry, p: seq<string>, q: seq<string>)
    ensures At(e, p + q) == if At(e, p).None? then None else At(At(e, p).value, q)
    decreases |p|
  {
    if |p| == 0 {
      assert p + q == q;
    } else {
      assert (p + q)[0] == p[0] && (p + q)[1..] == p[1..] + q;
      if e.files.Table? && Lookup(e.files.children, p[0]).Some? {
        AtAppend(Lookup(e.files.children, p[0]).value, p[1..], q);
      }
    }
  }

  /** Below a missing node everything is missing. */
  lemma MissingBelow(e: Entry, p: seq<string>, q: seq<string>)
    requires At(e, p).None?
    ensures At(e, p + q).None?
  {
    AtAppend(e, p, q);
  }

  /** After the replacement, the path leads to `x`, and what lies below it is `x`'s. */
  lemma {:induction false} ReplaceBelow(e: Entry, p: seq<string>, x: Entry, q: seq<string>)
    requires At(e, p).Some?
    ensures At(Replace(e, p, x), p + q) == At(x, q)
    decreases |p|
  {
    if |p| == 0 {
      assert p + q == q;
    } else {
      var cs := e.files.children;
      var c := Lookup(cs, p[0]).value;
      var c' := Replace(c, p[1..], x);
      PutLookup(cs, p[0], c', p[0]);
      assert (p + q)[0] == p[0] && (p + q)[1..] == p[1..] + q;
      ReplaceBelow(c, p[1..], x, q);
    }
  }

  lemma ReplaceAt(e: Entry, p: seq<string>, x: Entry)
    requires At(e, p).Some?
    ensures At(Replace(e, p, x), p) == Some(x)
  {
    ReplaceBelow(e, p, x, []);
    assert p + [] == p;
  }

  /** `p` and `q` part ways: neither is a prefix of the other. */
  predicate Diverge(p: seq<string>, q: seq<string>)
    decreases |p|
  {
    |p| > 0 && |q| > 0 && (p[0] != q[0] || Diverge(p[1..], q[1..]))
  }

  /** A replacement leaves every node off its path as it was (and absent ones absent). */
  lemma {:induction false} ReplaceOff(e: Entry, p: seq<string>, x: Entry, q: seq<string>)
    requires At(e, p).Some? && Diverge(p, q)
    ensures At(Replace(e, p, x), q) == At(e, q)
    decreases |p|
  {
    var cs := e.files.children;
    var c := Lookup(cs, p[0]).value;
    var c' := Replace(c, p[1..], x);
    PutLookup(cs, p[0], c', q[0]);
    if p[0] == q[0] {
      ReplaceOff(c, p[1..], x, q[1..]);
    }
  }

  /** Putting back the node that is there changes nothing. */
  lemma {:induction false} ReplaceSame(e: Entry, p: seq<string>)
    requires At(e, p).Some?
    ensures Replace(e, p, At(e, p).value) == e
    decreases |p|
  {
    if |p| > 0 {
      var cs := e.files.children;
      var c := Lookup(cs, p[0]).value;
      ReplaceSame(c, p[1..]);
      var k := Find(cs, p[0]).value;
      assert cs[k := Child(p[0], c)] == cs;
    }
  }

  /**
   * The step of the segment loop at a directory: `json.Files[dir] = new directory` when
   * `dir` is missing; nothing otherwise.
   */
  function EnsureChild(root: Entry, at: seq<string>, n: string): (r: Entry)
    requires At(root, at).Some? && IsDirectory(At(root, at).value)
    ensures At(r, at + [n]).Some?
    ensures At(root, at + [n]).Some? ==> r == root
    ensures At(root, at + [n]).None? ==> At(r, at + [n]) == Some(EmptyDirectory())
  {
    var json := At(root, at).value;
    AtAppend(root, at, [n]);
    if Lookup(json.files.children, n).Some? then root
    else
      var r := Replace(root, at, json.(files := Table(Put(json.files.children, n, EmptyDirectory()))));
      ReplaceBelow(root, at, json.(files := Table(Put(json.files.children, n, EmptyDirectory()))), [n]);
      PutLookup(json.files.children, n, EmptyDirectory(), n);
      r
  }

  datatype FsError = UnexpectedDirectoryState | NotFound | NotAFile | TooLarge | LinkDepth

  /** A tree and the path of the node an operation arrived at. */
  datatype Located = Located(root: Entry, path: seq<string>)

  /**
   * The segment loop of `SearchNodeFromDirectory`, from the node at `at`: skip "." and
   * empty pieces, create a missing child as an empty directory, and throw when the
   * current node is not a directory.
   */
  function WalkFrom(root: Entry, at: seq<string>, segs: seq<string>): (r: Result<Located, FsError>)
    requires At(root, at).Some?
    ensures r.Err? ==> r.error == UnexpectedDirectoryState
    decreases |segs|
  {
    if |segs| == 0 then Ok(Located(root, at))
    else if Skipped(segs[0]) then WalkFrom(root, at, segs[1..])
    else if !IsDirectory(At(root, at).value) then Err(UnexpectedDirectoryState)
    else WalkFrom(EnsureChild(root, at, segs[0]), at + [segs[0]], segs[1..])
  }

  /** `SearchNodeFromDirectory(p)` on the tree `root`. */
  function SearchNodeFromDirectory(root: Entry, p: string): Result<Located, FsError> {
    WalkFrom(root, [], Segments(p))
  }

  /** The walk ends at the start extended by the followed names, at a node that exists. */
  lemma {:induction false} WalkEnds(root: Entry, at: seq<string>, segs: seq<string>)
    requires At(root, at).Some?
    requires WalkFrom(root, at, segs).Ok?
    ensures WalkFrom(root, at, segs).value.path == at + Effective(segs)
    ensures At(WalkFrom(root, at, segs).value.root, at + Effective(segs)).Some?
    decreases |segs|
  {
    if |segs| == 0 {
      assert at + [] == at;
    } else if Skipped(segs[0]) {
      WalkSkip(root, at, segs);
      WalkEnds(root, at, segs[1..]);
    } else {
      WalkStep(root, at, segs);
      WalkEnds(EnsureChild(root, at, segs[0]), at + [segs[0]], segs[1..]);
    }
  }

  /** When the whole path is already there, the walk finds it and changes nothing. */
  lemma {:induction false} WalkExisting(root: Entry, at: seq<string>, segs: seq<string>)
    requires At(root, at + Effective(segs)).Some?
    ensures At(root, at).Some?
    ensures WalkFrom(root, at, segs) == Ok(Located(root, at + Effective(segs)))
    decreases |segs|
  {
    AtAppend(root, at, Effective(segs));
    if |segs| == 0 {
      assert at + [] == at;
    } else if Skipped(segs[0]) {
      WalkExisting(root, at, segs[1..]);
    } else {
      var n := segs[0];
      assert at + Effective(segs) == (at + [n]) + Effective(segs[1..]);
      AtAppend(root, at + [n], Effective(segs[1..]));
      AtAppend(root, at, [n]);
      assert IsDirectory(At(root, at).value);
      WalkExisting(root, at + [n], segs[1..]);
    }
  }

  /** One step of the walk over a skipped piece. */
  lemma WalkSkip(root: Entry, at: seq<string>, segs: seq<string>)
    requires At(root, at).Some? && |segs| > 0 && Skipped(segs[0])
    ensures Effective(segs) == Effective(segs[1..])
    ensures WalkFrom(root, at, segs) == WalkFrom(root, at, segs[1..])
  {
  }

  /** One step of the walk into a directory. */
  lemma WalkStep(root: Entry, at: seq<string>, segs: seq<string>)
    requires At(root, at).Some? && IsDirectory(At(root, at).value)
    requires |segs| > 0 && !Skipped(segs[0])
    ensures Effective(segs) == [segs[0]] + Effective(segs[1..])
    ensures at + Effective(segs) == (at + [segs[0]]) + Effective(segs[1..])
    ensures Effective(segs[1..]) == [] ==> at + Effective(segs) == at + [segs[0]]
    ensures WalkFrom(root, at, segs) == WalkFrom(EnsureChild(root, at, segs[0]), at + [segs[0]], segs[1..])
  {
  }

  /** A directory created empty holds nothing below it. */
  lemma FreshChild(root: Entry, at: seq<string>, n: string)
    requires At(root, at) == Some(EmptyDirectory())
    ensures At(root, at + [n]).None?
    ensures At(EnsureChild(root, at, n), at + [n]) == Some(EmptyDirectory())
  {
    AtAppend(root, at, [n]);
    assert Lookup([], n).None?;
  }

  /** A walk that starts in a freshly created directory creates the rest and cannot fail. */
  lemma {:induction false} WalkFresh(root: Entry, at: seq<string>, segs: seq<string>)
    requires At(root, at) == Some(EmptyDirectory())
    ensures WalkFrom(root, at, segs).Ok?
    ensures Effective(segs) != [] ==>
      At(WalkFrom(root, at, segs).value.root, at + Effective(segs)) == Some(EmptyDirectory())
    decreases |segs|
  {
    if |segs| > 0 {
      if Skipped(segs[0]) {
        WalkSkip(root, at, segs);
        WalkFresh(root, at, segs[1..]);
      } else {
        var n, rest := segs[0], segs[1..];
        var root' := EnsureChild(root, at, n);
        FreshChild(root, at, n);
        WalkStep(root, at, segs);
        WalkFresh(root', at + [n], rest);
        if Effective(rest) == [] {
          assert (at + [n]) + Effective(rest) == at + [n];
          WalkExisting(root', at + [n], rest);
        }
      }
    }
  }

  /** Some node on the way, before the last name, exists and is not a directory. */
  ghost predicate Blocked(root: Entry, at: seq<string>, names: seq<string>) {
    exists k :: 0 <= k < |names| && At(root, at + names[..k]).Some? && !IsDirectory(At(root, at + names[..k]).value)
  }

  /** From a directory, being blocked on `[n] + rest` is being blocked on `rest` below `n`. */
  lemma BlockedShift(root: Entry, at: seq<string>, n: string, rest: seq<string>)
    requires At(root, at).Some? && IsDirectory(At(root, at).value)
    ensures Blocked(root, at, [n] + rest) <==> Blocked(root, at + [n], rest)
  {
    var names := [n] + rest;
    if Blocked(root, at, names) {
      var k :| 0 <= k < |names| && At(root, at + names[..k]).Some? && !IsDirectory(At(root, at + names[..k]).value);
      assert k != 0 by {
        assert at + names[..0] == at;
      }
      assert at + names[..k] == (at + [n]) + rest[..k - 1];
    }
    if Blocked(root, at + [n], rest) {
      var k :| 0 <= k < |rest| && At(root, at + [n] + rest[..k]).Some? && !IsDirectory(At(root, at + [n] + rest[..k]).value);
      assert at + [n] + rest[..k] == at + names[..k + 1];
    }
  }

  /** Nothing blocks a path that leaves a directory by a missing name. */
  lemma BlockedMissing(root: Entry, at: seq<string>, n: string, rest: seq<string>)
    requires At(root, at).Some? && IsDirectory(At(root, at).value) && At(root, at + [n]).None?
    ensures !Blocked(root, at, [n] + rest)
  {
    var names := [n] + rest;
    forall k | 0 <= k < |names|
      ensures !(At(root, at + names[..k]).Some? && !IsDirectory(At(root, at + names[..k]).value))
    {
      if k == 0 {
        assert at + names[..0] == at;
      } else {
        assert at + names[..k] == (at + [n]) + rest[..k - 1];
        MissingBelow(root, at + [n], rest[..k - 1]);
      }
    }
  }

  /** The walk throws exactly when it meets an existing non-directory before the last name. */
  lemma {:induction false} WalkFails(root: Entry, at: seq<string>, segs: seq<string>)
    requires At(root, at).Some?
    ensures WalkFrom(root, at, segs).Err? <==> Blocked(root, at, Effective(segs))
    decreases |segs|
  {
    if |segs| > 0 {
      var n, rest := segs[0], segs[1..];
      if Skipped(n) {
        WalkSkip(root, at, segs);
        WalkFails(root, at, rest);
      } else if !IsDirectory(At(root, at).value) {
        assert Effective(segs)[..0] == [] && at + [] == at;
        assert Blocked(root, at, Effective(segs));
      } else {
        WalkStep(root, at, segs);
        var root' := EnsureChild(root, at, n);
        if At(root, at + [n]).None? {
          WalkFresh(root', at + [n], rest);
          BlockedMissing(root, at, n, Effective(rest));
        } else {
          WalkFails(root, at + [n], rest);
          BlockedShift(root, at, n, Effective(rest));
        }
      }
    }
  }

  /** A walk that has to create its last node leaves there an empty directory. */
  lemma WalkCreates(root: Entry, at: seq<string>, segs: seq<string>)
    requires At(root, at).Some? && WalkFrom(root, at, segs).Ok?
    requires Effective(segs) != [] && At(root, at + Effective(segs)).None?
    ensures At(WalkFrom(root, at, segs).value.root, at + Effective(segs)) == Some(EmptyDirectory())
    decreases |segs|
  {
    if Skipped(segs[0]) {
      WalkCreates(root, at, segs[1..]);
    } else {
      var n := segs[0];
      var root' := EnsureChild(root, at, n);
      WalkStep(root, at, segs);
      if At(root, at + [n]).None? {
        WalkFresh(root', at + [n], segs[1..]);
        if Effective(segs[1..]) == [] {
          WalkExisting(root', at + [n], segs[1..]);
        }
      } else {
        WalkCreates(root, at + [n], segs[1..]);
      }
    }
  }

  /** Creating the child `n` leaves every path that parts from `at + [n]` as it was. */
  lemma EnsureChildOff(root: Entry, at: seq<string>, n: string, q: seq<string>)
    requires At(root, at).Some? && IsDirectory(At(root, at).value)
    requires Diverge(at + [n], q)
    ensures At(EnsureChild(root, at, n), q) == At(root, q)
  {
    AtAppend(root, at, [n]);
    if At(root, at + [n]).None? {
      var json := At(root, at).value;
      var x := json.(files := Table(Put(json.files.children, n, EmptyDirectory())));
      DivergeParent(at, n, q);
      if Diverge(at, q) {
        ReplaceOff(root, at, x, q);
      } else {
        // q passes through `at` to a sibling of `n`.
        var rest := q[|at|..];
        assert q == at + rest;
        ReplaceBelow(root, at, x, rest);
        AtAppend(root, at, rest);
        PutLookup(json.files.children, n, EmptyDirectory(), rest[0]);
        assert At(x, rest) == At(json, rest);
      }
    }
  }

  /** Below a child the step had to create, nothing was and nothing is. */
  lemma EnsureChildBelow(root: Entry, at: seq<string>, n: string, t: seq<string>)
    requires At(root, at).Some? && IsDirectory(At(root, at).value) && At(root, at + [n]).None?
    requires |t| > 0
    ensures At(EnsureChild(root, at, n), (at + [n]) + t) == At(root, (at + [n]) + t)
  {
    MissingBelow(root, at + [n], t);
    AtAppend(EnsureChild(root, at, n), at + [n], t);
    assert Lookup([], t[0]).None?;
  }

  /** The walk leaves every node off the followed path as it was. */
  lemma {:induction false} WalkKeepsOthers(root: Entry, at: seq<string>, segs: seq<string>, q: seq<string>)
    requires At(root, at).Some? && WalkFrom(root, at, segs).Ok?
    requires Diverge(at + Effective(segs), q)
    ensures At(WalkFrom(root, at, segs).value.root, q) == At(root, q)
    decreases |segs|
  {
    if |segs| == 0 {
      assert at + [] == at;
    } else if Skipped(segs[0]) {
      WalkSkip(root, at, segs);
      WalkKeepsOthers(root, at, segs[1..], q);
    } else {
      var n, rest := segs[0], segs[1..];
      WalkStep(root, at, segs);
      WalkKeepsOthers(EnsureChild(root, at, n), at + [n], rest, q);
      EnsureChildKeepsOthers(root, at, n, Effective(rest), q);
    }
  }

  /** Adding the child `n` leaves every node off any path through it as it was. */
  lemma EnsureChildKeepsOthers(root: Entry, at: seq<string>, n: string, s: seq<string>, q: seq<string>)
    requires At(root, at).Some? && IsDirectory(At(root, at).value)
    requires Diverge((at + [n]) + s, q)
    ensures At(EnsureChild(root, at, n), q) == At(root, q)
  {
    DivergePrefix(at + [n], s, q);
    if Diverge(at + [n], q) {
      EnsureChildOff(root, at, n, q);
    } else if At(root, at + [n]).None? {
      var t := q[|at| + 1..];
      assert q == (at + [n]) + t;
      EnsureChildBelow(root, at, n, t);
    }
  }

  /** Diverging from `p + s`: diverging from `p`, or following `p` and then leaving `s`. */
  lemma {:induction false} DivergePrefix(p: seq<string>, s: seq<string>, q: seq<string>)
    requires Diverge(p + s, q)
    ensures Diverge(p, q) || (|q| > |p| && q[..|p|] == p && Diverge(s, q[|p|..]))
    decreases |p|
  {
    if |p| == 0 {
      assert p + s == s && q[..0] == p && q[0..] == q;
    } else {
      assert (p + s)[0] == p[0] && (p + s)[1..] == p[1..] + s;
      if p[0] == q[0] {
        DivergePrefix(p[1..], s, q[1..]);
        if !Diverge(p[1..], q[1..]) {
          assert q[..|p|] == [q[0]] + q[1..][..|p| - 1];
          assert q[|p|..] == q[1..][|p| - 1..];
        }
      }
    }
  }

  /** Diverging from `at + [n]`: diverging from `at`, or leaving `at` by another name. */
  lemma {:induction false} DivergeParent(at: seq<string>, n: string, q: seq<string>)
    requires Diverge(at + [n], q)
    ensures Diverge(at, q) || (|q| > |at| && q[..|at|] == at && q[|at|] != n)
    decreases |at|
  {
    if |at| == 0 {
      assert ([] + [n])[0] == n;
      assert q[..0] == [];
    } else {
      assert (at + [n])[0] == at[0] && (at + [n])[1..] == at[1..] + [n];
      if at[0] == q[0] {
        DivergeParent(at[1..], n, q[1..]);
        if !Diverge(at[1..], q[1..]) {
          assert q[..|at|] == [q[0]] + q[1..][..|at| - 1];
        }
      }
    }
  }

  /** `b` is `a` with, at most, children added and missing child tables created. */
  predicate Keeps(a: Entry, b: Entry) {
    a.(files := b.files) == b && (a.files.Table? ==> b.files.Table?)
  }

  /** The node at `q` in `a`, if any, is still in `b`, with the same fields. */
  predicate KeptAt(a: Entry, b: Entry, q: seq<string>) {
    At(a, q).Some? ==> At(b, q).Some? && Keeps(At(a, q).value, At(b, q).value)
  }

  /** Every node of `a` is still in `b`, at the same path, with the same fields. */
  ghost predicate Extends(a: Entry, b: Entry) {
    forall q :: At(a, q).Some? ==> At(b, q).Some? && Keeps(At(a, q).value, At(b, q).value)
  }

  lemma ExtendsTrans(a: Entry, b: Entry, c: Entry)
    requires Extends(a, b) && Extends(b, c)
    ensures Extends(a, c)
  {
  }

  /** Two paths part ways, or one is a prefix of the other. */
  lemma {:induction false} PrefixOrDiverge(p: seq<string>, q: seq<string>)
    ensures Diverge(p, q) || (|q| <= |p| && p[..|q|] == q) || (|p| < |q| && q[..|p|] == p)
    decreases |p|
  {
    if |p| > 0 && |q| > 0 && p[0] == q[0] {
      PrefixOrDiverge(p[1..], q[1..]);
      if |q| <= |p| && p[1..][..|q| - 1] == q[1..] {
        assert p[..|q|] == [p[0]] + p[1..][..|q| - 1];
        assert q == [q[0]] + q[1..];
      } else if |p| < |q| && q[1..][..|p| - 1] == p[1..] {
        assert q[..|p|] == [q[0]] + q[1..][..|p| - 1];
        assert p == [p[0]] + p[1..];
      }
    } else if |q| == 0 {
      assert p[..0] == q;
    } else if |p| == 0 {
      assert q[..0] == p;
    }
  }

  /** On the way to the replaced node, each node is its old self with the replacement below. */
  lemma {:induction false} ReplaceAlong(e: Entry, p: seq<string>, x: Entry, k: nat)
    requires At(e, p).Some? && k <= |p|
    ensures At(e, p[..k]).Some? && At(At(e, p[..k]).value, p[k..]).Some?
    ensures At(Replace(e, p, x), p[..k]) == Some(Replace(At(e, p[..k]).value, p[k..], x))
    decreases k
  {
    AtAppend(e, p[..k], p[k..]);
    assert p[..k] + p[k..] == p;
    if k == 0 {
      assert p[..0] == [] && p[0..] == p;
    } else {
      var cs := e.files.children;
      var c := Lookup(cs, p[0]).value;
      PutLookup(cs, p[0], Replace(c, p[1..], x), p[0]);
      ReplaceAlong(c, p[1..], x, k - 1);
      assert p[..k][0] == p[0] && p[..k][1..] == p[1..][..k - 1];
      assert p[1..][k - 1..] == p[k..];
    }
  }

  /** Replacing a node by one that extends it extends the whole tree. */
  lemma ReplaceExtends(e: Entry, p: seq<string>, x: Entry)
    requires At(e, p).Some? && Extends(At(e, p).value, x)
    ensures Extends(e, Replace(e, p, x))
  {
    var r := Replace(e, p, x);
    var old_ := At(e, p).value;
    forall q | At(e, q).Some?
      ensures At(r, q).Some? && Keeps(At(e, q).value, At(r, q).value)
    {
      PrefixOrDiverge(p, q);
      if Diverge(p, q) {
        ReplaceOff(e, p, x, q);
      } else if |q| < |p| && p[..|q|] == q {
        ReplaceAlong(e, p, x, |q|);
      } else if |q| == |p| && p[..|q|] == q {
        assert q == p;
        ReplaceAt(e, p, x);
        assert At(old_, []) == Some(old_);
      } else {
        var t := q[|p|..];
        assert q == p + t;
        ReplaceBelow(e, p, x, t);
        AtAppend(e, p, t);
      }
    }
  }

  /** Adding a child under a name not yet there keeps every node. */
  lemma AddChildExtends(d: Entry, n: string, y: Entry)
    requires IsDirectory(d) && Lookup(d.files.children, n).None?
    ensures Extends(d, d.(files := Table(Put(d.files.children, n, y))))
  {
    var d' := d.(files := Table(Put(d.files.children, n, y)));
    forall q | At(d, q).Some?
      ensures At(d', q).Some? && Keeps(At(d, q).value, At(d', q).value)
    {
      if |q| > 0 {
        PutLookup(d.files.children, n, y, q[0]);
      }
    }
  }

  /** Giving a node without a child table an empty one keeps every node. */
  lemma OpenExtends(d: Entry)
    requires d.files.NoTable?
    ensures Extends(d, d.(files := Table([])))
  {
    forall q | At(d, q).Some?
      ensures At(d.(files := Table([])), q).Some? && Keeps(At(d, q).value, At(d.(files := Table([])), q).value)
    {
    }
  }

  /** One step of the walk keeps every node. */
  lemma EnsureChildExtends(root: Entry, at: seq<string>, n: string)
    requires At(root, at).Some? && IsDirectory(At(root, at).value)
    ensures Extends(root, EnsureChild(root, at, n))
  {
    var json := At(root, at).value;
    AtAppend(root, at, [n]);
    if Lookup(json.files.children, n).None? {
      AddChildExtends(json, n, EmptyDirectory());
      ReplaceExtends(root, at, json.(files := Table(Put(json.files.children, n, EmptyDirectory()))));
    }
  }

  /** The walk only adds: every node of the tree is still there, unchanged but for new children. */
  lemma {:induction false} WalkExtends(root: Entry, at: seq<string>, segs: seq<string>)
    requires At(root, at).Some? && WalkFrom(root, at, segs).Ok?
    ensures Extends(root, WalkFrom(root, at, segs).value.root)
    decreases |segs|
  {
    if |segs| > 0 {
      if Skipped(segs[0]) {
        WalkSkip(root, at, segs);
        WalkExtends(root, at, segs[1..]);
      } else {
        WalkStep(root, at, segs);
        var root' := EnsureChild(root, at, segs[0]);
        EnsureChildExtends(root, at, segs[0]);
        WalkExtends(root', at + [segs[0]], segs[1..]);
        ExtendsTrans(root, root', WalkFrom(root, at, segs).value.root);
      }
    }
  }
}
