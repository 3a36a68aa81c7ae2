/** What the entries of an archive do to the disk (internal/plugarchive/plugarchive.go):
    directories, files and symbolic links, with paths looked up component by component.
    The checks on names and links are lexical; here is what they come to. */
module UnpackDisk {
  import opened LexicalPath
  import opened Strings
  import opened Unpack

  // ----- the disk -----

  /** An archive entry by the names of its path below the unpack root. */
  datatype Item = Item(names: seq<string>, kind: Kind)

  /** A place in the tree of real directories, as the names down from "/". */
  type Location = seq<string>

  datatype Object = Dir | File | Link(linkname: string)

  type Disk = map<Location, Object>

  predicate IsLink(disk: Disk, at: Location) {
    at in disk && disk[at].Link?
  }

  predicate IsDir(disk: Disk, at: Location) {
    at in disk && disk[at].Dir?
  }

  /** Looking a directory up from another, through at most so many links; "/" is always
      there.  None if it is not there, not a directory, or too many links away. */
  function Follow(disk: Disk, at: Location, parts: seq<string>, hops: nat): Option<Location>
    decreases hops, |parts|
  {
    if parts == [] then Some(at)
    else if parts[0] == "" || parts[0] == "." then Follow(disk, at, parts[1..], hops)
    else if parts[0] == ".." then Follow(disk, if at == [] then [] else at[..|at| - 1], parts[1..], hops)
    else
      var next := at + [parts[0]];
      if next !in disk then None
      else
        match disk[next]
        case Dir => Follow(disk, next, parts[1..], hops)
        case File => None
        case Link(linkname) =>
          if hops == 0 then None
          else Follow(disk, if IsAbs(linkname) then [] else at, Split('/', linkname) + parts[1..], hops - 1)
  }

  datatype Made = Made(disk: Disk, at: Location)

  /** os.MkdirAll: missing directories are made, a link is followed, a file is an error.
      The names of an accepted entry hold no "..". */
  function MkdirAll(disk: Disk, at: Location, names: seq<string>, hops: nat): Option<Made>
    decreases |names|
  {
    if names == [] then Some(Made(disk, at))
    else
      var next := at + [names[0]];
      if next !in disk then MkdirAll(disk[next := Dir], next, names[1..], hops)
      else
        match disk[next]
        case Dir => MkdirAll(disk, next, names[1..], hops)
        case File => None
        case Link(_) =>
          match Follow(disk, at, [names[0]], hops)
          case None => None
          case Some(to) => MkdirAll(disk, to, names[1..], hops)
  }

  predicate IsEmpty(disk: Disk, at: Location) {
    forall other | other in disk :: !(at < other)
  }

  /** One entry at last, under the directory at: a file is opened without following a link,
      a link replaces a file, a link or an empty directory. */
  function WriteAt(disk: Disk, at: Location, last: string, kind: Kind, hops: nat): Option<Disk> {
    var target := at + [last];
    match kind
    case Directory =>
      var made := MkdirAll(disk, at, [last], hops);
      if made.None? then None else Some(made.value.disk)
    case Regular => if target in disk && !disk[target].File? then None else Some(disk[target := File])
    case Symlink(linkname) =>
      if IsDir(disk, target) && !IsEmpty(disk, target) then None else Some(disk[target := Link(linkname)])
    case Special => Some(disk)
  }

  /** The names of an entry's path below the directory that holds the unpack root, the
      root's own name first. */
  function EntryNames(base: string, item: Item): (names: seq<string>)
    ensures |names| > 0
  {
    [base] + item.names
  }

  function ParentNames(base: string, item: Item): seq<string> {
    var names := EntryNames(base, item);
    names[..|names| - 1]
  }

  function LastName(base: string, item: Item): string {
    var names := EntryNames(base, item);
    names[|names| - 1]
  }

  /** Where the entry belongs: the root followed by the entry's own names. */
  function Place(dir: Location, base: string, item: Item): Location {
    dir + EntryNames(base, item)
  }

  /** extractEntry, with the directories it makes on the way. */
  function WriteEntry(disk: Disk, dir: Location, base: string, item: Item, hops: nat): Option<Disk> {
    if item.kind.Special? then Some(disk)
    else
      match MkdirAll(disk, dir, ParentNames(base, item), hops)
      case None => None
      case Some(made) => WriteAt(made.disk, made.at, LastName(base, item), item.kind, hops)
  }

  /** The disk after all of these entries; None if one of them cannot be written. */
  function WriteAll(disk: Disk, dir: Location, base: string, items: seq<Item>, hops: nat): Option<Disk>
    decreases |items|
  {
    if items == [] then Some(disk)
    else
      match WriteAll(disk, dir, base, items[..|items| - 1], hops)
      case None => None
      case Some(before) => WriteEntry(before, dir, base, items[|items| - 1], hops)
  }

  // ----- paths that meet no link -----

  /** Looking names up from a directory meets a link. */
  predicate MeetsLink(disk: Disk, at: Location, names: seq<string>)
    decreases |names|
  {
    names != [] &&
    (var next := at + [names[0]];
     next in disk && (disk[next].Link? || (disk[next].Dir? && MeetsLink(disk, next, names[1..]))))
  }

  /** Below the root everything lies in a real directory. */
  ghost predicate IsTree(disk: Disk, root: Location) {
    root != [] && forall at | at in disk && root < at :: IsDir(disk, at[..|at| - 1])
  }

  lemma {:induction false} AboveIsDir(disk: Disk, root: Location, at: Location, up: Location)
    requires IsTree(disk, root) && at in disk && root <= up < at
    ensures IsDir(disk, up)
    decreases |at|
  {
    var parent := at[..|at| - 1];
    assert root < at;
    if up != parent {
      AboveIsDir(disk, root, parent, up);
    }
  }

  /** Names meet a link exactly if one of the places down to them is a link. */
  lemma {:induction false} MeetsLinkIff(disk: Disk, root: Location, at: Location, names: seq<string>)
    requires IsTree(disk, root) && (names != [] ==> root <= at + [names[0]])
    ensures MeetsLink(disk, at, names) <==> exists m :: 0 < m <= |names| && IsLink(disk, at + names[..m])
    decreases |names|
  {
    if names != [] {
      var next, rest := at + [names[0]], names[1..];
      assert names[..1] == [names[0]];
      MeetsLinkIff(disk, root, next, rest);
      forall m | 0 < m <= |rest|
        ensures next + rest[..m] == at + names[..m + 1]
      {
      }
      if m :| 0 < m <= |names| && IsLink(disk, at + names[..m]) && m > 1 {
        assert next + rest[..m - 1] == at + names[..m];
        AboveIsDir(disk, root, at + names[..m], next);
      }
      if MeetsLink(disk, next, rest) {
        var m :| 0 < m <= |rest| && IsLink(disk, next + rest[..m]);
        assert IsLink(disk, at + names[..m + 1]);
      }
    }
  }

  /** disk' is disk with directories made on the way down the names, and nothing else. */
  ghost predicate OnlyMade(disk: Disk, disk': Disk, at: Location, names: seq<string>) {
    && (forall l | l in disk :: l in disk' && disk'[l] == disk[l])
    && (forall l | l in disk' && l !in disk :: disk'[l].Dir? && exists m :: 0 < m <= |names| && l == at + names[..m])
    && (forall m | 0 < m <= |names| :: IsDir(disk', at + names[..m]))
  }

  /** Without a link on the way, directories are made where their names say. */
  lemma {:induction false} MadeInPlace(disk: Disk, at: Location, names: seq<string>, hops: nat)
    requires forall m | 0 < m <= |names| :: !IsLink(disk, at + names[..m])
    requires MkdirAll(disk, at, names, hops).Some?
    ensures var made := MkdirAll(disk, at, names, hops).value;
            made.at == at + names && OnlyMade(disk, made.disk, at, names)
    decreases |names|
  {
    if names == [] {
      assert at + names == at;
    } else {
      var next, rest := at + [names[0]], names[1..];
      var disk1 := if next in disk then disk else disk[next := Dir];
      assert names[..1] == [names[0]];
      assert !IsLink(disk, at + names[..1]);
      forall m | 0 < m <= |rest|
        ensures !IsLink(disk1, next + rest[..m])
      {
        assert next + rest[..m] == at + names[..m + 1];
      }
      MadeInPlace(disk1, next, rest, hops);
      assert next + rest == at + names;
      MadeBelow(disk, disk1, MkdirAll(disk1, next, rest, hops).value.disk, at, names);
    }
  }

  lemma MadeBelow(disk: Disk, disk1: Disk, disk': Disk, at: Location, names: seq<string>)
    requires names != [] && OnlyMade(disk1, disk', at + [names[0]], names[1..])
    requires disk1 == (if at + [names[0]] in disk then disk else disk[at + [names[0]] := Dir]) &&
             IsDir(disk1, at + [names[0]])
    ensures OnlyMade(disk, disk', at, names)
  {
    var next, rest := at + [names[0]], names[1..];
    assert names[..1] == [names[0]];
    forall m | 0 < m <= |rest|
      ensures next + rest[..m] == at + names[..m + 1]
    {
    }
    forall m | 0 < m <= |names|
      ensures IsDir(disk', at + names[..m])
    {
      if m > 1 {
        assert IsDir(disk', next + rest[..m - 1]);
      }
    }
    forall l | l in disk' && l !in disk
      ensures disk'[l].Dir? && exists m :: 0 < m <= |names| && l == at + names[..m]
    {
      if l !in disk1 {
        var m :| 0 < m <= |rest| && l == next + rest[..m];
        assert l == at + names[..m + 1];
      } else {
        assert l == at + names[..1];
      }
    }
  }

  // ----- what the entries so far have done -----

  /** Nothing but the unpack root has changed, the root is a tree, and its links are the
      link entries, each in its own place. */
  ghost predicate OnDisk(before: Disk, disk: Disk, dir: Location, base: string, items: seq<Item>) {
    && IsTree(disk, dir + [base])
    && Untouched(before, disk, dir + [base])
    && forall l | dir + [base] <= l :: LinkOn(disk, l) == LinkAt(dir, base, items, l)
  }

  ghost predicate Untouched(before: Disk, disk: Disk, root: Location) {
    forall l | !(root <= l) :: (l in disk <==> l in before) && (l in disk ==> disk[l] == before[l])
  }

  /** The target of the link on the disk. */
  function LinkOn(disk: Disk, l: Location): Option<string> {
    if l in disk && disk[l].Link? then Some(disk[l].linkname) else None
  }

  /** The target of the last link entry with that place. */
  function LinkAt(dir: Location, base: string, items: seq<Item>, l: Location): Option<string>
    decreases |items|
  {
    if items == [] then None
    else
      var last := items[|items| - 1];
      if last.kind.Symlink? && Place(dir, base, last) == l then Some(last.kind.linkname)
      else LinkAt(dir, base, items[..|items| - 1], l)
  }

  /** Item j is a link entry for that place, with that target. */
  predicate IsLinkEntry(dir: Location, base: string, items: seq<Item>, j: nat, l: Location, linkname: string) {
    j < |items| && items[j].kind == Symlink(linkname) && Place(dir, base, items[j]) == l
  }

  lemma {:induction false} LinkAtIsEntry(dir: Location, base: string, items: seq<Item>, l: Location)
    ensures LinkAt(dir, base, items, l).Some? ==>
              exists j: nat :: IsLinkEntry(dir, base, items, j, l, LinkAt(dir, base, items, l).value)
    decreases |items|
  {
    if LinkAt(dir, base, items, l).Some? {
      var n := |items| - 1;
      var linkname := LinkAt(dir, base, items, l).value;
      if items[n].kind.Symlink? && Place(dir, base, items[n]) == l {
        assert IsLinkEntry(dir, base, items, n, l, linkname);
      } else {
        LinkAtIsEntry(dir, base, items[..n], l);
        var j: nat :| IsLinkEntry(dir, base, items[..n], j, l, linkname);
        assert IsLinkEntry(dir, base, items, j, l, linkname);
      }
    }
  }

  lemma {:induction false} EntryIsLinkAt(dir: Location, base: string, items: seq<Item>, j: nat)
    requires j < |items| && items[j].kind.Symlink?
    ensures LinkAt(dir, base, items, Place(dir, base, items[j])).Some?
    decreases |items|
  {
    var n := |items| - 1;
    if j < n {
      EntryIsLinkAt(dir, base, items[..n], j);
    }
  }

  /** The entry is to be written under the name of an earlier link. */
  ghost predicate BeneathLink(items: seq<Item>, i: nat) {
    && i < |items| && !items[i].kind.Special?
    && exists j :: 0 <= j < i && items[j].kind.Symlink? && items[j].names < items[i].names
  }

  lemma MeetsIffBeneath(before: Disk, disk: Disk, dir: Location, base: string, items: seq<Item>, i: nat)
    requires i < |items| && !items[i].kind.Special? && OnDisk(before, disk, dir, base, items[..i])
    ensures MeetsLink(disk, dir, ParentNames(base, items[i])) <==> BeneathLink(items, i)
  {
    var parents := ParentNames(base, items[i]);
    assert parents != [] ==> parents[0] == base;
    MeetsLinkIff(disk, dir + [base], dir, parents);
    if m :| 0 < m <= |parents| && IsLink(disk, dir + parents[..m]) {
      LinkAbove(before, disk, dir, base, items, i, m);
    }
    if BeneathLink(items, i) {
      var j :| 0 <= j < i && items[j].kind.Symlink? && items[j].names < items[i].names;
      LinkIsAbove(before, disk, dir, base, items, i, j);
    }
  }

  lemma LinkAbove(before: Disk, disk: Disk, dir: Location, base: string, items: seq<Item>, i: nat, m: nat)
    requires i < |items| && !items[i].kind.Special? && OnDisk(before, disk, dir, base, items[..i])
    requires 0 < m <= |ParentNames(base, items[i])| && IsLink(disk, dir + ParentNames(base, items[i])[..m])
    ensures BeneathLink(items, i)
  {
    var link := ParentNames(base, items[i])[..m];
    assert link == [base] + items[i].names[..m - 1];
    assert dir + [base] <= dir + link;
    LinkAtIsEntry(dir, base, items[..i], dir + link);
    assert LinkAt(dir, base, items[..i], dir + link) == LinkOn(disk, dir + link);
    var j: nat :| IsLinkEntry(dir, base, items[..i], j, dir + link, LinkOn(disk, dir + link).value);
    SamePlace(dir, EntryNames(base, items[j]), link);
    assert items[j].names == link[1..];
  }

  lemma LinkIsAbove(before: Disk, disk: Disk, dir: Location, base: string, items: seq<Item>, i: nat, j: nat)
    requires i < |items| && j < i && OnDisk(before, disk, dir, base, items[..i])
    requires items[j].kind.Symlink? && items[j].names < items[i].names
    ensures var m := |items[j].names| + 1;
            m <= |ParentNames(base, items[i])| && IsLink(disk, dir + ParentNames(base, items[i])[..m])
  {
    var m := |items[j].names| + 1;
    assert ParentNames(base, items[i])[..m] == EntryNames(base, items[j]);
    assert items[..i][j] == items[j];
    EntryIsLinkAt(dir, base, items[..i], j);
    PlaceIsBelow(dir, base, items[j]);
  }

  lemma SamePlace(dir: Location, a: seq<string>, b: seq<string>)
    requires dir + a == dir + b
    ensures a == b
  {
    assert (dir + a)[|dir|..] == a && (dir + b)[|dir|..] == b;
  }

  /** Directories made in place change neither the tree nor the links. */
  lemma MadeKeeps(before: Disk, disk: Disk, disk': Disk, dir: Location, base: string, items: seq<Item>,
                  names: seq<string>)
    requires OnDisk(before, disk, dir, base, items) && OnlyMade(disk, disk', dir, names)
    requires names != [] ==> names[0] == base
    ensures OnDisk(before, disk', dir, base, items)
  {
    var root := dir + [base];
    forall l | l in disk' && l !in disk
      ensures root <= l && (root < l ==> IsDir(disk', l[..|l| - 1]))
    {
      var m :| 0 < m <= |names| && l == dir + names[..m];
      assert names[..m][0] == base;
      if m > 1 {
        assert l[..|l| - 1] == dir + names[..m - 1];
      } else {
        assert l == root;
      }
    }
    forall l | root <= l
      ensures LinkOn(disk', l) == LinkAt(dir, base, items, l)
    {
      assert LinkOn(disk', l) == LinkOn(disk, l);
    }
  }

  /** One object put where nothing lies beneath it keeps the tree, and what is outside. */
  lemma PutKeeps(before: Disk, disk: Disk, root: Location, target: Location, put: Object)
    requires IsTree(disk, root) && Untouched(before, disk, root)
    requires root <= target && (root < target ==> IsDir(disk, target[..|target| - 1]))
    requires IsDir(disk, target) ==> IsEmpty(disk, target)
    ensures IsTree(disk[target := put], root) && Untouched(before, disk[target := put], root)
  {
    var disk' := disk[target := put];
    forall l | l in disk' && root < l
      ensures IsDir(disk', l[..|l| - 1])
    {
      var parent := l[..|l| - 1];
      if l != target {
        assert IsDir(disk, parent);
        assert parent < l;
        assert parent != target;
      }
    }
  }

  lemma OneMoreEntry(dir: Location, base: string, items: seq<Item>, item: Item, l: Location)
    ensures LinkAt(dir, base, items + [item], l) ==
            if item.kind.Symlink? && Place(dir, base, item) == l then Some(item.kind.linkname)
            else LinkAt(dir, base, items, l)
  {
    assert (items + [item])[..|items|] == items;
  }

  /** An object put in the entry's own place accounts for the entry. */
  lemma PutOnDisk(before: Disk, disk: Disk, dir: Location, base: string, items: seq<Item>, item: Item, put: Object)
    requires OnDisk(before, disk, dir, base, items)
    requires var target := Place(dir, base, item);
             && (dir + [base] < target ==> IsDir(disk, target[..|target| - 1]))
             && (IsDir(disk, target) ==> IsEmpty(disk, target))
             && (!put.Link? ==> !IsLink(disk, target))
    requires if item.kind.Symlink? then put == Link(item.kind.linkname) else !put.Link?
    ensures OnDisk(before, disk[Place(dir, base, item) := put], dir, base, items + [item])
  {
    var target := Place(dir, base, item);
    PlaceIsBelow(dir, base, item);
    PutKeeps(before, disk, dir + [base], target, put);
    forall l | dir + [base] <= l
      ensures LinkOn(disk[target := put], l) == LinkAt(dir, base, items + [item], l)
    {
      OneMoreEntry(dir, base, items, item, l);
      assert LinkOn(disk, l) == LinkAt(dir, base, items, l);
    }
  }

  lemma NothingPut(before: Disk, disk: Disk, dir: Location, base: string, items: seq<Item>, item: Item)
    requires OnDisk(before, disk, dir, base, items) && !item.kind.Symlink?
    ensures OnDisk(before, disk, dir, base, items + [item])
  {
    forall l
      ensures LinkAt(dir, base, items + [item], l) == LinkAt(dir, base, items, l)
    {
      OneMoreEntry(dir, base, items, item, l);
    }
  }

  lemma DirectoryAt(disk: Disk, at: Location, last: string, hops: nat)
    requires WriteAt(disk, at, last, Directory, hops).Some?
    ensures WriteAt(disk, at, last, Directory, hops).value ==
            if at + [last] in disk then disk else disk[at + [last] := Dir]
  {
    var next := at + [last];
    assert [last][0] == last && [last][1..] == [];
    if next in disk && disk[next].Link? {
      var to := Follow(disk, at, [last], hops);
      assert to.Some?;
      assert MkdirAll(disk, to.value, [], hops) == Some(Made(disk, to.value));
    } else if next in disk {
      assert MkdirAll(disk, next, [], hops) == Some(Made(disk, next));
    } else {
      assert MkdirAll(disk[next := Dir], next, [], hops) == Some(Made(disk[next := Dir], next));
    }
  }

  /** The last step of an entry, in its parent directory. */
  lemma WrittenInPlace(
    before: Disk, disk: Disk, dir: Location, base: string, items: seq<Item>, item: Item, at: Location, last: string,
    hops: nat)
    requires OnDisk(before, disk, dir, base, items) && !item.kind.Special?
    requires at + [last] == Place(dir, base, item) && (dir + [base] < at + [last] ==> IsDir(disk, at))
    requires WriteAt(disk, at, last, item.kind, hops).Some?
    ensures OnDisk(before, WriteAt(disk, at, last, item.kind, hops).value, dir, base, items + [item])
  {
    var target := Place(dir, base, item);
    assert target[..|target| - 1] == at;
    match item.kind
    case Directory =>
      DirectoryAt(disk, at, last, hops);
      if target in disk {
        NothingPut(before, disk, dir, base, items, item);
      } else {
        PutOnDisk(before, disk, dir, base, items, item, Dir);
      }
    case Regular => PutOnDisk(before, disk, dir, base, items, item, File);
    case Symlink(linkname) => PutOnDisk(before, disk, dir, base, items, item, Link(linkname));
  }

  lemma PlaceIsBelow(dir: Location, base: string, item: Item)
    ensures dir + [base] <= Place(dir, base, item)
  {
    assert Place(dir, base, item) == dir + [base] + item.names;
  }

  /** An entry that is not beneath a link is written where its name says. */
  lemma EntryKeeps(before: Disk, disk: Disk, dir: Location, base: string, items: seq<Item>, i: nat, hops: nat)
    requires i < |items| && OnDisk(before, disk, dir, base, items[..i]) && !BeneathLink(items, i)
    requires WriteEntry(disk, dir, base, items[i], hops).Some?
    ensures OnDisk(before, WriteEntry(disk, dir, base, items[i], hops).value, dir, base, items[..i + 1])
  {
    var item := items[i];
    assert items[..i + 1] == items[..i] + [item];
    if item.kind.Special? {
      NothingPut(before, disk, dir, base, items[..i], item);
    } else {
      var parents, last := ParentNames(base, item), LastName(base, item);
      MeetsIffBeneath(before, disk, dir, base, items, i);
      MeetsLinkIff(disk, dir + [base], dir, parents);
      MadeInPlace(disk, dir, parents, hops);
      var made := MkdirAll(disk, dir, parents, hops).value;
      MadeKeeps(before, disk, made.disk, dir, base, items[..i], parents);
      ParentIsMade(made.disk, dir, base, item);
      WrittenInPlace(before, made.disk, dir, base, items[..i], item, made.at, last, hops);
    }
  }

  lemma ParentIsMade(disk: Disk, dir: Location, base: string, item: Item)
    requires var parents := ParentNames(base, item); forall m | 0 < m <= |parents| :: IsDir(disk, dir + parents[..m])
    ensures var at := dir + ParentNames(base, item);
            && at + [LastName(base, item)] == Place(dir, base, item)
            && (dir + [base] < Place(dir, base, item) ==> IsDir(disk, at))
  {
    var parents := ParentNames(base, item);
    assert parents + [LastName(base, item)] == EntryNames(base, item);
    assert parents[..|parents|] == parents;
  }

  // ----- whole archives -----

  /** The unpack root is there and empty. */
  ghost predicate Fresh(disk: Disk, root: Location) {
    IsDir(disk, root) && IsEmpty(disk, root)
  }

  lemma FreshIsOnDisk(disk: Disk, dir: Location, base: string)
    requires Fresh(disk, dir + [base])
    ensures OnDisk(disk, disk, dir, base, [])
  {
    forall l | dir + [base] <= l
      ensures LinkOn(disk, l) == None
    {
      assert l == dir + [base] || dir + [base] < l;
    }
  }

  lemma {:induction false} PrefixIsWritten(disk: Disk, dir: Location, base: string, items: seq<Item>, i: nat, hops: nat)
    requires i <= |items| && WriteAll(disk, dir, base, items, hops).Some?
    ensures WriteAll(disk, dir, base, items[..i], hops).Some?
    decreases |items|
  {
    if i < |items| {
      PrefixIsWritten(disk, dir, base, items[..|items| - 1], i, hops);
      assert items[..|items| - 1][..i] == items[..i];
    } else {
      assert items[..i] == items;
    }
  }

  /** Entry i is reached through a link that is on the disk when its turn comes. */
  ghost predicate ThroughLink(disk: Disk, dir: Location, base: string, items: seq<Item>, i: nat, hops: nat) {
    && i < |items| && !items[i].kind.Special?
    && var so := WriteAll(disk, dir, base, items[..i], hops);
       so.Some? && MeetsLink(so.value, dir, ParentNames(base, items[i]))
  }

  /** As long as no entry is beneath a link, everything is written where its name says. */
  lemma {:induction false} WrittenSoFar(disk: Disk, dir: Location, base: string, items: seq<Item>, n: nat, hops: nat)
    requires Fresh(disk, dir + [base]) && WriteAll(disk, dir, base, items, hops).Some? && n <= |items|
    requires forall i: nat | i < n :: !BeneathLink(items, i)
    ensures WriteAll(disk, dir, base, items[..n], hops).Some?
    ensures OnDisk(disk, WriteAll(disk, dir, base, items[..n], hops).value, dir, base, items[..n])
  {
    PrefixIsWritten(disk, dir, base, items, n, hops);
    if n == 0 {
      FreshIsOnDisk(disk, dir, base);
      assert items[..0] == [];
    } else {
      WrittenSoFar(disk, dir, base, items, n - 1, hops);
      assert items[..n][..n - 1] == items[..n - 1] && items[..n][n - 1] == items[n - 1];
      EntryKeeps(disk, WriteAll(disk, dir, base, items[..n - 1], hops).value, dir, base, items, n - 1, hops);
    }
  }

  ghost predicate NoneBeneathLink(items: seq<Item>) {
    forall i: nat | i < |items| :: !BeneathLink(items, i)
  }

  /** Exactly when no entry is written through a link: when none of them is to be written
      under the name of an earlier link. */
  lemma NeverThroughLinkIff(disk: Disk, dir: Location, base: string, items: seq<Item>, hops: nat)
    requires Fresh(disk, dir + [base]) && WriteAll(disk, dir, base, items, hops).Some?
    ensures (forall i: nat :: !ThroughLink(disk, dir, base, items, i, hops)) <==> NoneBeneathLink(items)
  {
    if NoneBeneathLink(items) {
      forall i: nat | i < |items|
        ensures !ThroughLink(disk, dir, base, items, i, hops)
      {
        ThroughIffBeneath(disk, dir, base, items, i, hops);
      }
    } else {
      var i := FirstBeneath(items);
      ThroughIffBeneath(disk, dir, base, items, i, hops);
    }
  }

  lemma ThroughIffBeneath(disk: Disk, dir: Location, base: string, items: seq<Item>, i: nat, hops: nat)
    requires Fresh(disk, dir + [base]) && WriteAll(disk, dir, base, items, hops).Some? && i < |items|
    requires forall k: nat | k < i :: !BeneathLink(items, k)
    ensures ThroughLink(disk, dir, base, items, i, hops) <==> BeneathLink(items, i)
  {
    WrittenSoFar(disk, dir, base, items, i, hops);
    if !items[i].kind.Special? {
      MeetsIffBeneath(disk, WriteAll(disk, dir, base, items[..i], hops).value, dir, base, items, i);
    }
  }

  lemma FirstBeneath(items: seq<Item>) returns (i: nat)
    requires !NoneBeneathLink(items)
    ensures BeneathLink(items, i) && forall k: nat | k < i :: !BeneathLink(items, k)
  {
    i := 0;
    while !BeneathLink(items, i)
      invariant i <= |items| && forall k: nat | k < i :: !BeneathLink(items, k)
      decreases |items| - i
    {
      i := i + 1;
    }
  }

  /** Then the disk outside the unpack root is as it was, and every link sits in the place
      its target was checked for. */
  lemma WritesStayInside(disk: Disk, dir: Location, base: string, items: seq<Item>, hops: nat)
    requires Fresh(disk, dir + [base]) && WriteAll(disk, dir, base, items, hops).Some?
    requires NoneBeneathLink(items)
    ensures OnDisk(disk, WriteAll(disk, dir, base, items, hops).value, dir, base, items)
  {
    WrittenSoFar(disk, dir, base, items, |items|, hops);
    assert items[..|items|] == items;
  }

  /** A file beneath a link, in an archive that stays inside the root: the file is written
      through the link, into the directory the link leads to. */
  lemma WrittenThroughLink(hops: nat)
    requires hops > 0
    ensures var items := [Item(["b"], Directory), Item(["a"], Symlink("b")), Item(["a", "x"], Regular)];
            && ThroughLink(map[["r"] := Dir], [], "r", items, 2, hops)
            && WriteAll(map[["r"] := Dir], [], "r", items, hops) ==
               Some(map[["r"] := Dir, ["r", "b"] := Dir, ["r", "a"] := Link("b"), ["r", "b", "x"] := File])
  {
    var items := [Item(["b"], Directory), Item(["a"], Symlink("b")), Item(["a", "x"], Regular)];
    var d0: Disk := map[["r"] := Dir];
    var d1 := d0[["r", "b"] := Dir];
    var d2 := d1[["r", "a"] := Link("b")];
    var d3 := d2[["r", "b", "x"] := File];
    assert ["r"] + ["b"] == ["r", "b"] && ["r"] + ["a"] == ["r", "a"] && ["r", "b"] + ["x"] == ["r", "b", "x"];
    TopLevelWritten(d0, items[0], hops);
    DirectoryAt(d0, ["r"], "b", hops);
    assert WriteEntry(d0, [], "r", items[0], hops) == Some(d1);
    TopLevelWritten(d1, items[1], hops);
    assert WriteEntry(d1, [], "r", items[1], hops) == Some(d2);
    LinkFollowed(d2, hops);
    assert WriteEntry(d2, [], "r", items[2], hops) == Some(d3);
    ThreeWritten(d0, items, d1, d2, d3, hops);
    assert MeetsLink(d2, [], ["r", "a"]) by {
      assert MeetsLink(d2, ["r"], ["a"]);
    }
  }

  lemma TopLevelWritten(disk: Disk, item: Item, hops: nat)
    requires IsDir(disk, ["r"]) && |item.names| == 1 && !item.kind.Special?
    ensures WriteEntry(disk, [], "r", item, hops) == WriteAt(disk, ["r"], item.names[0], item.kind, hops)
  {
    assert ParentNames("r", item) == ["r"] && LastName("r", item) == item.names[0];
    assert [] + ["r"] == ["r"];
    assert MkdirAll(disk, ["r"], [], hops) == Some(Made(disk, ["r"]));
    assert ["r"][1..] == [];
  }

  lemma LinkFollowed(disk: Disk, hops: nat)
    requires hops > 0 && IsDir(disk, ["r"]) && IsDir(disk, ["r", "b"])
    requires ["r", "a"] in disk && disk[["r", "a"]] == Link("b")
    ensures MkdirAll(disk, [], ["r", "a"], hops) == Some(Made(disk, ["r", "b"]))
    ensures ParentNames("r", Item(["a", "x"], Regular)) == ["r", "a"] && LastName("r", Item(["a", "x"], Regular)) == "x"
  {
    SplitWhole('/', "b");
    assert ["r"] + ["a"] == ["r", "a"] && ["r"] + ["b"] == ["r", "b"] && [] + ["r"] == ["r"];
    assert ["a"][1..] == [] && ["b"][1..] == [] && ["b"] + [] == ["b"] && ["r", "a"][1..] == ["a"];
    assert Follow(disk, ["r", "b"], [], hops - 1) == Some(["r", "b"]);
    assert Follow(disk, ["r"], ["b"], hops - 1) == Some(["r", "b"]);
    assert Follow(disk, ["r"], ["a"], hops) == Some(["r", "b"]);
    assert MkdirAll(disk, ["r", "b"], [], hops) == Some(Made(disk, ["r", "b"]));
    assert MkdirAll(disk, ["r"], ["a"], hops) == Some(Made(disk, ["r", "b"]));
  }

  lemma ThreeWritten(d0: Disk, items: seq<Item>, d1: Disk, d2: Disk, d3: Disk, hops: nat)
    requires |items| == 3 && WriteEntry(d0, [], "r", items[0], hops) == Some(d1)
    requires WriteEntry(d1, [], "r", items[1], hops) == Some(d2) && WriteEntry(d2, [], "r", items[2], hops) == Some(d3)
    ensures WriteAll(d0, [], "r", items[..2], hops) == Some(d2) && WriteAll(d0, [], "r", items, hops) == Some(d3)
  {
    assert items[..0] == [] && items[..1][..0] == [] && items[..2][..1] == items[..1];
    assert WriteAll(d0, [], "r", items[..0], hops) == Some(d0);
    assert WriteAll(d0, [], "r", items[..1], hops) == Some(d1);
    assert WriteAll(d0, [], "r", items[..2], hops) == Some(d2);
  }

  // ----- the loop -----

  datatype Status = Done | UnsafePath | IoFailed

  function ItemOf(header: Header): Item {
    Item(Elements(header.name), header.kind)
  }

  function ItemsOf(headers: seq<Header>): seq<Item> {
    seq(|headers|, i requires 0 <= i < |headers| => ItemOf(headers[i]))
  }

  /** The name of the unpack root in the directory that holds it. */
  function RootName(destDir: string): string
    requires Anchored(destDir)
  {
    Elements(destDir)[|Elements(destDir)| - 1]
  }

  lemma OneMoreItem(disk: Disk, dir: Location, base: string, headers: seq<Header>, i: nat, hops: nat, so: Disk)
    requires i < |headers| && WriteAll(disk, dir, base, ItemsOf(headers[..i]), hops) == Some(so)
    ensures WriteAll(disk, dir, base, ItemsOf(headers[..i + 1]), hops) ==
            WriteEntry(so, dir, base, ItemOf(headers[i]), hops)
  {
    var items := ItemsOf(headers[..i + 1]);
    assert items[..i] == ItemsOf(headers[..i]) && items[i] == ItemOf(headers[i]);
  }

  /** The two checks on an entry. */
  method Accept(destDir: string, header: Header) returns (accepted: bool)
    requires destDir != "" && Anchored(destDir)
    ensures accepted <==> Acceptable(destDir, header)
  {
    CheckEntryIff(destDir, header);
    var target := SafeJoin(destDir, header.name);
    if target.None? {
      return false;
    }
    return !header.kind.Symlink? || CheckSymlinkTarget(destDir, target.value, header.kind.linkname);
  }

  ghost predicate AllAcceptable(destDir: string, headers: seq<Header>) {
    forall i | 0 <= i < |headers| :: Acceptable(destDir, headers[i])
  }

  lemma OneMoreAccepted(destDir: string, headers: seq<Header>, i: nat)
    requires i < |headers| && AllAcceptable(destDir, headers[..i]) && Acceptable(destDir, headers[i])
    ensures AllAcceptable(destDir, headers[..i + 1])
  {
    var more := headers[..i + 1];
    forall k | 0 <= k < |more|
      ensures Acceptable(destDir, more[k])
    {
      if k < i {
        assert headers[..i][k] == headers[k];
      }
    }
  }

  /** extractTo: entries are taken in order, each accepted only if its name, and its target
      if it is a link, stay lexically inside; unpacking stops as unsafe exactly at the
      first that does not.  dir is the directory that holds destDir; io(i) says that the
      device takes entry i, which the disk may still refuse. */
  method ExtractTo(destDir: string, headers: seq<Header>, disk: Disk, dir: Location, hops: nat, io: int -> bool)
    returns (status: Status, written: nat, after: Disk)
    requires destDir != "" && Anchored(destDir)
    ensures written <= |headers|
    ensures AllAcceptable(destDir, headers[..written])
    ensures status == Done <==> written == |headers|
    ensures status == UnsafePath <==> written < |headers| && !Acceptable(destDir, headers[written])
    ensures status == IoFailed ==>
              !io(written) || WriteEntry(after, dir, RootName(destDir), ItemOf(headers[written]), hops).None?
    ensures WriteAll(disk, dir, RootName(destDir), ItemsOf(headers[..written]), hops) == Some(after)
    ensures Fresh(disk, dir + [RootName(destDir)]) && NoneBeneathLink(ItemsOf(headers[..written])) ==>
              OnDisk(disk, after, dir, RootName(destDir), ItemsOf(headers[..written]))
  {
    var base := RootName(destDir);
    written, after := 0, disk;
    assert headers[..0] == [] && ItemsOf([]) == [];
    status := Done;
    while written < |headers|
      invariant written <= |headers| && status == Done
      invariant AllAcceptable(destDir, headers[..written])
      invariant WriteAll(disk, dir, base, ItemsOf(headers[..written]), hops) == Some(after)
    {
      var header := headers[written];
      var accepted := Accept(destDir, header);
      if !accepted {
        status := UnsafePath;
        break;
      }

      var next := WriteEntry(after, dir, base, ItemOf(header), hops);
      if next.None? || (!header.kind.Special? && !io(written)) {
        status := IoFailed;
        break;
      }
      OneMoreItem(disk, dir, base, headers, written, hops, after);
      OneMoreAccepted(destDir, headers, written);
      after := next.value;
      written := written + 1;
    }
    KeptInside(disk, dir, base, ItemsOf(headers[..written]), hops, after);
  }

  lemma KeptInside(disk: Disk, dir: Location, base: string, items: seq<Item>, hops: nat, after: Disk)
    requires WriteAll(disk, dir, base, items, hops) == Some(after)
    ensures Fresh(disk, dir + [base]) && NoneBeneathLink(items) ==> OnDisk(disk, after, dir, base, items)
  {
    if Fresh(disk, dir + [base]) && NoneBeneathLink(items) {
      WritesStayInside(disk, dir, base, items, hops);
    }
  }
}
