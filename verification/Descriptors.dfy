/** Collecting a file descriptor and everything it imports, dependencies first
    (cmd/easyp-svc/descriptor.go).  A file is its path; the graph says what each
    file imports, in order.  Nothing here assumes that imports are acyclic: the
    last theorem says exactly what a cycle costs. */
module Descriptors {

  type Path = string

  type Graph = map<Path, seq<Path>>

  /** Every import is a file of the graph. */
  ghost predicate Closed(g: Graph) {
    forall f, i | f in g && 0 <= i < |g[f]| :: g[f][i] in g
  }

  ghost predicate Imports(g: Graph, f: Path, h: Path) {
    f in g && h in g[f]
  }

  /** p is a chain of imports from f to h, of no step or more. */
  ghost predicate Chain(g: Graph, f: Path, p: seq<Path>, h: Path)
    decreases |p|
  {
    if p == [] then f == h else Imports(g, f, p[0]) && Chain(g, p[0], p[1..], h)
  }

  ghost predicate Reaches(g: Graph, f: Path, h: Path) {
    exists p :: Chain(g, f, p, h)
  }

  ghost predicate Distinct(fs: seq<Path>) {
    forall i, k | 0 <= i < k < |fs| :: fs[i] != fs[k]
  }

  /** What import h of file f at position i of the list may be: an earlier entry. */
  ghost predicate DependenciesFirst(g: Graph, fs: seq<Path>) {
    forall i, h | 0 <= i < |fs| && Imports(g, fs[i], h) :: h in fs[..i]
  }

  ghost predicate Acyclic(g: Graph, root: Path) {
    forall f, h | Reaches(g, root, f) && Imports(g, f, h) :: !Reaches(g, h, f)
  }

  // ----- chains -----

  lemma {:induction false} ChainAppend(g: Graph, f: Path, p: seq<Path>, h: Path, next: Path)
    requires Chain(g, f, p, h) && Imports(g, h, next)
    ensures Chain(g, f, p + [next], next)
    decreases |p|
  {
    if p != [] {
      ChainAppend(g, p[0], p[1..], h, next);
      assert (p + [next])[1..] == p[1..] + [next];
    } else {
      assert (p + [next])[1..] == [];
    }
  }

  lemma ReachesImport(g: Graph, f: Path, h: Path, next: Path)
    requires Reaches(g, f, h) && Imports(g, h, next)
    ensures Reaches(g, f, next)
  {
    var p :| Chain(g, f, p, h);
    ChainAppend(g, f, p, h, next);
  }

  lemma ReachesItself(g: Graph, f: Path)
    ensures Reaches(g, f, f)
  {
    assert Chain(g, f, [], f);
  }

  /** A set that holds f and the imports of its members holds all f reaches. */
  lemma {:induction false} ClosedSetHoldsChain(g: Graph, s: set<Path>, f: Path, p: seq<Path>, h: Path)
    requires f in s && Chain(g, f, p, h)
    requires forall a, b | a in s && Imports(g, a, b) :: b in s
    ensures h in s
    decreases |p|
  {
    if p != [] {
      ClosedSetHoldsChain(g, s, p[0], p[1..], h);
    }
  }

  // ----- the walk -----

  /** An import either precedes the file that needs it or leads back to it. */
  ghost predicate Ordered(g: Graph, fs: seq<Path>) {
    forall i, h | 0 <= i < |fs| && Imports(g, fs[i], h) :: h in fs[..i] || Reaches(g, h, fs[i])
  }

  ghost function Elements(fs: seq<Path>): set<Path> {
    set i | 0 <= i < |fs| :: fs[i]
  }

  /** Entered but not yet appended: the files the recursion is inside of. */
  ghost function Open(files: seq<Path>, seen: set<Path>): set<Path> {
    seen - Elements(files)
  }

  ghost predicate Inv(g: Graph, files: seq<Path>, seen: set<Path>) {
    && seen <= g.Keys
    && Elements(files) <= seen
    && Distinct(files)
    && Ordered(g, files)
    && (forall a, b | a in Elements(files) && Imports(g, a, b) :: b in seen)
  }

  /** Everything the recursion is inside of leads to fd. */
  ghost predicate OpenReaches(g: Graph, files: seq<Path>, seen: set<Path>, fd: Path) {
    forall a | a in Open(files, seen) :: Reaches(g, a, fd)
  }

  ghost predicate AllReachedFrom(g: Graph, fd: Path, fs: set<Path>) {
    forall a | a in fs :: Reaches(g, fd, a)
  }

  /** What a call on fd does to the list and the seen set. */
  ghost predicate Collected(g: Graph, fd: Path, files: seq<Path>, seen: set<Path>, files': seq<Path>,
                            seen': set<Path>)
  {
    && Inv(g, files', seen')
    && Open(files', seen') == Open(files, seen)
    && files <= files' && seen + {fd} <= seen'
    && AllReachedFrom(g, fd, seen' - seen)
  }

  /** The same, half way through the imports of fd. */
  ghost predicate Collecting(g: Graph, fd: Path, files: seq<Path>, seen: set<Path>, files': seq<Path>,
                             seen': set<Path>)
  {
    && Inv(g, files', seen') && OpenReaches(g, files', seen', fd)
    && fd !in seen && Open(files', seen') == Open(files, seen) + {fd}
    && files <= files' && seen + {fd} <= seen'
    && AllReachedFrom(g, fd, seen' - seen)
  }

  lemma Enter(g: Graph, files: seq<Path>, seen: set<Path>, fd: Path)
    requires Inv(g, files, seen) && OpenReaches(g, files, seen, fd) && fd in g && fd !in seen
    ensures Collecting(g, fd, files, seen, files, seen + {fd})
    ensures |g.Keys - (seen + {fd})| < |g.Keys - seen|
  {
    ReachesItself(g, fd);
    assert g.Keys - (seen + {fd}) == (g.Keys - seen) - {fd};
  }

  lemma Descend(g: Graph, files: seq<Path>, seen: set<Path>, fd: Path, next: Path)
    requires OpenReaches(g, files, seen, fd) && Imports(g, fd, next)
    ensures OpenReaches(g, files, seen, next)
  {
    forall a | a in Open(files, seen)
      ensures Reaches(g, a, next)
    {
      ReachesImport(g, a, fd, next);
    }
  }

  lemma Return(g: Graph, fd: Path, next: Path, files: seq<Path>, seen: set<Path>, files': seq<Path>, seen': set<Path>,
               files'': seq<Path>, seen'': set<Path>)
    requires Collecting(g, fd, files, seen, files', seen') && Imports(g, fd, next)
    requires Collected(g, next, files', seen', files'', seen'')
    ensures Collecting(g, fd, files, seen, files'', seen'')
  {
    forall a | a in seen'' - seen'
      ensures Reaches(g, fd, a)
    {
      var p :| Chain(g, next, p, a);
      assert ([next] + p)[1..] == p;
      assert Chain(g, fd, [next] + p, a);
    }
    assert seen'' - seen <= (seen' - seen) + (seen'' - seen');
  }

  lemma ElementsOfPrefix(fs: seq<Path>, i: nat)
    requires i < |fs|
    ensures Elements(fs[..i + 1]) == Elements(fs[..i]) + {fs[i]}
  {
    assert fs[..i + 1][i] == fs[i];
    assert forall k | 0 <= k < i :: fs[..i + 1][k] == fs[..i][k];
  }

  lemma Leave(g: Graph, fd: Path, files: seq<Path>, seen: set<Path>, files': seq<Path>, seen': set<Path>)
    requires Collecting(g, fd, files, seen, files', seen')
    requires fd in g && Elements(g[fd]) <= seen'
    ensures Collected(g, fd, files, seen, files' + [fd], seen')
  {
    var more := files' + [fd];
    assert fd in Open(files', seen');
    assert forall i | 0 <= i < |files'| :: more[i] == files'[i] && more[..i] == files'[..i];
    assert more[..|files'|] == files' && more[..|files'| + 1] == more;
    ElementsOfPrefix(more, |files'|);
    forall h | Imports(g, fd, h)
      ensures h in seen'
    {
      var i :| 0 <= i < |g[fd]| && g[fd][i] == h;
      assert g[fd][i] in Elements(g[fd]);
    }
    forall i, h | 0 <= i < |more| && Imports(g, more[i], h)
      ensures h in more[..i] || Reaches(g, h, more[i])
    {
      if i == |files'| && h !in files' {
        assert h in Open(files', seen');
      }
    }
    assert Open(more, seen') == Open(files', seen') - {fd};
    assert fd !in Open(files, seen);
  }

  class Collector {
    var files: seq<Path>
    var seen: set<Path>

    constructor ()
      ensures files == [] && seen == {}
    {
      files, seen := [], {};
    }

    method Collect(g: Graph, fd: Path)
      requires Closed(g) && fd in g && Inv(g, files, seen) && OpenReaches(g, files, seen, fd)
      modifies this
      ensures Collected(g, fd, old(files), old(seen), files, seen)
      ensures fd in old(seen) ==> files == old(files) && seen == old(seen)
      decreases |g.Keys - seen|
    {
      if fd in seen {
        return;
      }

      Enter(g, files, seen, fd);
      seen := seen + {fd};
      ghost var entered := seen;

      var imports := g[fd];
      for idx := 0 to |imports|
        invariant Collecting(g, fd, old(files), old(seen), files, seen)
        invariant entered <= seen && Elements(imports[..idx]) <= seen
      {
        var next := imports[idx];
        Descend(g, files, seen, fd, next);
        Smaller(g.Keys - seen, g.Keys - entered);
        ghost var files', seen' := files, seen;
        Collect(g, next);
        Return(g, fd, next, old(files), old(seen), files', seen', files, seen);
        ElementsOfPrefix(imports, idx);
      }

      assert imports[..|imports|] == imports;
      Leave(g, fd, old(files), old(seen), files, seen);
      files := files + [fd];
    }
  }

  lemma {:induction false} Smaller(s: set<Path>, t: set<Path>)
    requires s <= t
    ensures |s| <= |t|
  {
    if s != t {
      var x :| x in t && x !in s;
      Smaller(s, t - {x});
    }
  }

  // ----- the whole set -----

  /** The set runAPIDescriptor writes: every file the root reaches, once, and no
      other, and the dependencies come first exactly when no file the root reaches
      imports its way back to itself. */
  method CollectFileDescriptors(g: Graph, root: Path) returns (files: seq<Path>)
    requires Closed(g) && root in g
    ensures Distinct(files)
    ensures forall f :: f in files <==> Reaches(g, root, f)
    ensures DependenciesFirst(g, files) <==> Acyclic(g, root)
  {
    var collector := new Collector();
    assert Open([], {}) == {};
    collector.Collect(g, root);
    files := collector.files;
    Complete(g, root, files, collector.seen);
  }

  lemma EverySeenIsListed(files: seq<Path>, seen: set<Path>)
    requires Open(files, seen) == {}
    ensures forall f | f in seen :: f in files
  {
    forall f | f in seen
      ensures f in files
    {
      assert f !in Open(files, seen);
    }
  }

  lemma Complete(g: Graph, root: Path, files: seq<Path>, seen: set<Path>)
    requires Inv(g, files, seen) && Open(files, seen) == {} && root in seen
    requires AllReachedFrom(g, root, seen)
    ensures forall f :: f in files <==> Reaches(g, root, f)
    ensures DependenciesFirst(g, files) <==> Acyclic(g, root)
  {
    EverySeenIsListed(files, seen);
    forall f | Reaches(g, root, f)
      ensures f in files
    {
      var p :| Chain(g, root, p, f);
      ClosedSetHoldsChain(g, seen, root, p, f);
    }
    if Acyclic(g, root) {
      forall i, h | 0 <= i < |files| && Imports(g, files[i], h)
        ensures h in files[..i]
      {
        assert files[i] in files;
      }
    }
    if DependenciesFirst(g, files) {
      forall f, h | Reaches(g, root, f) && Imports(g, f, h)
        ensures !Reaches(g, h, f)
      {
        OrderedMeansAcyclic(g, files, f, h);
      }
    }
  }

  /** When every import precedes its file, what a file reaches stays before it. */
  lemma OrderedMeansAcyclic(g: Graph, files: seq<Path>, f: Path, h: Path)
    requires DependenciesFirst(g, files) && Distinct(files) && f in files && Imports(g, f, h)
    ensures !Reaches(g, h, f)
  {
    var i :| 0 <= i < |files| && files[i] == f;
    var before := Elements(files[..i]);
    assert h in files[..i];
    var j :| 0 <= j < i && files[..i][j] == h;
    forall a, b | a in before && Imports(g, a, b)
      ensures b in before
    {
      var k :| 0 <= k < i && files[..i][k] == a;
      assert files[k] == a && b in files[..k];
      var m :| 0 <= m < k && files[..k][m] == b;
      assert files[..i][m] == b;
    }
    assert files[..i][j] in before;
    assert f !in before by {
      assert forall k | 0 <= k < i :: files[..i][k] == files[k] != f;
    }
    forall p | Chain(g, h, p, f)
      ensures false
    {
      ClosedSetHoldsChain(g, before, h, p, f);
      assert false;
    }
  }
}
