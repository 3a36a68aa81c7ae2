/** What an archive leaves below the unpack root (internal/plugarchive/plugarchive.go): every
    file, directory and link it names, each in its place, and nothing else. */
module UnpackContents {
  import opened Strings
  import opened Unpack
  import opened UnpackDisk

  /** What the entries, in their order, say about the path of these names below the root.  An
      entry makes what it is, a directory unless something is there, and the directories
      above it that are missing. */
  function Described(items: seq<Item>, names: seq<string>): Option<Object>
    decreases |items|
  {
    if items == [] then (if names == [] then Some(Dir) else None)
    else
      var last, before := items[|items| - 1], Described(items[..|items| - 1], names);
      if last.kind.Special? || !(names <= last.names) then before
      else if names == last.names && last.kind.Regular? then Some(File)
      else if names == last.names && last.kind.Symlink? then Some(Link(last.kind.linkname))
      else if before.None? then Some(Dir)
      else before
  }

  function ObjectAt(disk: Disk, l: Location): Option<Object> {
    if l in disk then Some(disk[l]) else None
  }

  /** The disk below the root is what the entries say. */
  ghost predicate Holds(disk: Disk, root: Location, items: seq<Item>) {
    forall names: seq<string> :: ObjectAt(disk, root + names) == Described(items, names)
  }

  lemma FreshHolds(disk: Disk, root: Location)
    requires Fresh(disk, root)
    ensures Holds(disk, root, [])
  {
    forall names: seq<string>
      ensures ObjectAt(disk, root + names) == Described([], names)
    {
      if names == [] {
        assert root + names == root;
      } else {
        assert root < root + names;
      }
    }
  }

  lemma SameNames(root: Location, a: seq<string>, b: seq<string>)
    ensures root + a == root + b <==> a == b
  {
    if root + a == root + b {
      assert (root + a)[|root|..] == a && (root + b)[|root|..] == b;
    }
  }

  /** The directories above an entry, made. */
  lemma MadeHolds(disk: Disk, disk': Disk, dir: Location, base: string, item: Item, names: seq<string>)
    requires OnlyMade(disk, disk', dir, ParentNames(base, item)) && dir + [base] in disk
    ensures var l := dir + [base] + names;
            ObjectAt(disk', l) ==
            if names < item.names && ObjectAt(disk, l).None? then Some(Dir) else ObjectAt(disk, l)
  {
    var l, parents := dir + [base] + names, ParentNames(base, item);
    assert l == dir + ([base] + names);
    if names < item.names {
      assert parents[..|names| + 1] == [base] + names;
    }
    if l in disk' && l !in disk {
      var m :| 0 < m <= |parents| && l == dir + parents[..m];
      SameNames(dir, [base] + names, parents[..m]);
      assert ([base] + names)[1..] == names && parents[..m][1..] == item.names[..m - 1];
      assert m > 1 ==> names < item.names;
      assert m == 1 ==> names == [] && l == dir + [base];
    }
  }

  /** The entry itself, written. */
  lemma WrittenHolds(disk: Disk, at: Location, last: string, kind: Kind, hops: nat, l: Location)
    requires !kind.Special? && WriteAt(disk, at, last, kind, hops).Some?
    ensures ObjectAt(WriteAt(disk, at, last, kind, hops).value, l) ==
            if l != at + [last] then ObjectAt(disk, l)
            else match kind
              case Regular => Some(File)
              case Symlink(linkname) => Some(Link(linkname))
              case _ => if ObjectAt(disk, l).None? then Some(Dir) else ObjectAt(disk, l)
  {
    if kind.Directory? {
      DirectoryAt(disk, at, last, hops);
    }
  }

  lemma EntryHolds(before: Disk, disk: Disk, dir: Location, base: string, items: seq<Item>, i: nat, hops: nat)
    requires i < |items| && OnDisk(before, disk, dir, base, items[..i]) && !BeneathLink(items, i)
    requires Holds(disk, dir + [base], items[..i])
    requires WriteEntry(disk, dir, base, items[i], hops).Some?
    ensures Holds(WriteEntry(disk, dir, base, items[i], hops).value, dir + [base], items[..i + 1])
  {
    var item, root := items[i], dir + [base];
    assert items[..i + 1][..i] == items[..i] && items[..i + 1][i] == item;
    if !item.kind.Special? {
      var parents, last := ParentNames(base, item), LastName(base, item);
      MeetsIffBeneath(before, disk, dir, base, items, i);
      MeetsLinkIff(disk, root, dir, parents);
      MadeInPlace(disk, dir, parents, hops);
      RootIsThere(disk, root, items[..i]);
      var made := MkdirAll(disk, dir, parents, hops).value;
      forall names: seq<string>
        ensures ObjectAt(WriteAt(made.disk, made.at, last, item.kind, hops).value, root + names) ==
                Described(items[..i + 1], names)
      {
        MadeHolds(disk, made.disk, dir, base, item, names);
        WrittenHolds(made.disk, made.at, last, item.kind, hops, root + names);
        EntryPlace(dir, base, item, names);
        assert ObjectAt(disk, root + names) == Described(items[..i], names);
      }
    }
  }

  lemma EntryPlace(dir: Location, base: string, item: Item, names: seq<string>)
    ensures dir + [base] + names == dir + ParentNames(base, item) + [LastName(base, item)] <==> names == item.names
  {
    assert dir + ParentNames(base, item) + [LastName(base, item)] == dir + [base] + item.names;
    SameNames(dir + [base], names, item.names);
  }

  lemma {:induction false} RootIsThere(disk: Disk, root: Location, items: seq<Item>)
    requires Holds(disk, root, items)
    ensures root in disk
  {
    RootIsDescribed(items);
    assert root + [] == root;
    assert ObjectAt(disk, root + []) == Described(items, []);
  }

  lemma {:induction false} RootIsDescribed(items: seq<Item>)
    ensures Described(items, []).Some?
    decreases |items|
  {
    if items != [] {
      RootIsDescribed(items[..|items| - 1]);
    }
  }

  lemma {:induction false} HoldsSoFar(disk: Disk, dir: Location, base: string, items: seq<Item>, n: nat, hops: nat)
    requires Fresh(disk, dir + [base]) && WriteAll(disk, dir, base, items, hops).Some? && n <= |items|
    requires NoneBeneathLink(items)
    ensures WriteAll(disk, dir, base, items[..n], hops).Some?
    ensures Holds(WriteAll(disk, dir, base, items[..n], hops).value, dir + [base], items[..n])
  {
    WrittenSoFar(disk, dir, base, items, n, hops);
    if n == 0 {
      FreshHolds(disk, dir + [base]);
      assert items[..0] == [];
    } else {
      HoldsSoFar(disk, dir, base, items, n - 1, hops);
      WrittenSoFar(disk, dir, base, items, n - 1, hops);
      assert items[..n][..n - 1] == items[..n - 1] && items[..n][n - 1] == items[n - 1];
      EntryHolds(disk, WriteAll(disk, dir, base, items[..n - 1], hops).value, dir, base, items, n - 1, hops);
    }
  }

  /** An archive with no entry beneath a link, once written, is on the disk just as its
      entries describe it. */
  lemma UnpackedAsDescribed(disk: Disk, dir: Location, base: string, items: seq<Item>, hops: nat)
    requires Fresh(disk, dir + [base]) && WriteAll(disk, dir, base, items, hops).Some?
    requires NoneBeneathLink(items)
    ensures Holds(WriteAll(disk, dir, base, items, hops).value, dir + [base], items)
  {
    HoldsSoFar(disk, dir, base, items, |items|, hops);
    assert items[..|items|] == items;
  }
}
