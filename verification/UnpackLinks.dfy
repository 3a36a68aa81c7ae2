/** Where the links of an unpacked archive lead (internal/plugarchive/plugarchive.go).  The
    check on a link's target cleans it as text; on the disk a target is looked up name by
    name, and a ".." after a link climbs from where that link leads. */
module UnpackLinks {
  import opened LexicalPath
  import opened Strings
  import opened Unpack
  import opened UnpackDisk

  // ----- links that meet no other -----

  /** Looking the parts up from a directory meets a link. */
  predicate MeetsLinkOn(disk: Disk, at: Location, parts: seq<string>)
    decreases |parts|
  {
    parts != [] &&
    if parts[0] == "" || parts[0] == "." then MeetsLinkOn(disk, at, parts[1..])
    else if parts[0] == ".." then MeetsLinkOn(disk, if at == [] then [] else at[..|at| - 1], parts[1..])
    else
      var next := at + [parts[0]];
      IsLink(disk, next) || MeetsLinkOn(disk, next, parts[1..])
  }

  /** A path that meets no further link leads where it does lexically. */
  lemma {:induction false} FollowedLexically(disk: Disk, at: Location, parts: seq<string>, hops: nat)
    requires !MeetsLinkOn(disk, at, parts) && Follow(disk, at, parts, hops).Some? && forall n | n in at :: n != ".."
    ensures Follow(disk, at, parts, hops).value == ResolveAll(true, at, parts)
    decreases |parts|
  {
    if parts != [] {
      var next := Resolve(true, at, parts[0]);
      assert at != [] ==> at[|at| - 1] in at;
      if parts[0] == ".." && at != [] {
        assert next == at[..|at| - 1] && forall n | n in next :: n in at;
      }
      FollowedLexically(disk, next, parts[1..], hops);
    }
  }

  lemma ParentOfRendered(rooted: bool, names: seq<string>)
    requires Cleaned(rooted, names) && names != []
    ensures Parent(Render(rooted, names)) == names[..|names| - 1]
  {
    var n := |names| - 1;
    RenderedElements(rooted, names);
    SplitJoined('/', names);
    ResolveCleaned(rooted, names, n);
    if rooted {
      SplitStep('/', '/', Joined('/', names));
      assert ['/'] + Joined('/', names) == "/" + Joined('/', names);
      assert ([""] + names)[..n + 1] == [""] + names[..n];
      assert ([""] + names[..n])[1..] == names[..n];
    }
  }

  /** The directory an accepted entry lies in. */
  lemma ParentOfTarget(destDir: string, name: string)
    requires destDir != "" && Anchored(destDir) && SafeJoin(destDir, name).Some?
    ensures var names := Elements(destDir) + Elements(name);
            Parent(SafeJoin(destDir, name).value) == names[..|names| - 1]
  {
    SafeJoinIff(destDir, name);
    var target := SafeJoin(destDir, name).value;
    CleanedElements(name);
    ElementsAreCleaned(target);
    var path := destDir + "/" + Clean(name);
    assert target == Clean(path) by {
      NotEmptyClean(name);
    }
    CleanedElements(path);
    ParentOfRendered(IsAbs(target), Elements(target));
  }

  lemma NotEmptyClean(name: string)
    ensures Clean(name) != ""
  {
    ElementsAreCleaned(name);
    if Elements(name) != [] {
      JoinedStarts(Elements(name));
    }
  }

  /** The directory of an entry's path, by names. */
  function Above(destDir: string, name: string): Location
    requires Anchored(destDir)
  {
    var names := Elements(destDir) + Elements(name);
    names[..|names| - 1]
  }

  /** What being accepted says about a link's target, from that directory. */
  lemma AcceptedLink(destDir: string, name: string, linkname: string)
    requires destDir != "" && IsAbs(destDir) && Anchored(destDir)
    requires Acceptable(destDir, Header(name, Symlink(linkname)))
    ensures Elements(destDir) <= ResolveAll(true, Above(destDir, name), Split('/', linkname))
  {
    SafeJoinIff(destDir, name);
    ParentOfTarget(destDir, name);
  }

  /** By counting: a target that never goes up past the root is accepted, and one that ends
      above it is refused. */
  lemma TargetByLevel(destDir: string, name: string, linkname: string)
    requires destDir != "" && IsAbs(destDir) && Anchored(destDir) && SafeJoin(destDir, name).Some? &&
             Elements(name) != []
    requires linkname != "" && !IsAbs(linkname)
    ensures var parts, depth := Split('/', linkname), |Elements(name)| - 1;
            && (NeverAbove(parts, depth) ==> CheckEntry(destDir, Header(name, Symlink(linkname))).Some?)
            && (NeverAbove(parts, |Elements(destDir)| + depth) && Level(parts) < -depth ==>
                  CheckEntry(destDir, Header(name, Symlink(linkname))).None?)
  {
    var parts, depth := Split('/', linkname), |Elements(name)| - 1;
    var root, above := Elements(destDir), Above(destDir, name);
    ParentOfTarget(destDir, name);
    SafeJoinIff(destDir, name);
    CheckEntryIff(destDir, Header(name, Symlink(linkname)));
    AboveHasNoClimb(destDir, name);
    assert forall i | 0 <= i < |above| :: above[i] in above;
    assert above == root + Elements(name)[..depth];
    if NeverAbove(parts, depth) {
      ResolvedBelow(true, root, above, parts);
    }
    if NeverAbove(parts, |root| + depth) {
      ResolvedBelow(true, [], above, parts);
    }
  }

  lemma AboveHasNoClimb(destDir: string, name: string)
    requires destDir != "" && IsAbs(destDir) && Anchored(destDir) && SafeJoin(destDir, name).Some?
    ensures forall n | n in Above(destDir, name) :: n != ".."
  {
    SafeJoinIff(destDir, name);
    var target := SafeJoin(destDir, name).value;
    ElementsAreCleaned(target);
    var names := Elements(target);
    assert Above(destDir, name) == names[..|names| - 1];
  }

  /** An accepted link in its own place, when no other link is met on the way, leads to
      the unpack root or below it. */
  lemma LinkLeadsBelow(disk: Disk, destDir: string, name: string, linkname: string, hops: nat)
    requires destDir != "" && IsAbs(destDir) && Anchored(destDir)
    requires Acceptable(destDir, Header(name, Symlink(linkname)))
    requires !MeetsLinkOn(disk, Above(destDir, name), Split('/', linkname))
    requires Follow(disk, Above(destDir, name), Split('/', linkname), hops).Some?
    ensures Elements(destDir) <= Follow(disk, Above(destDir, name), Split('/', linkname), hops).value
  {
    AcceptedLink(destDir, name, linkname);
    AboveHasNoClimb(destDir, name);
    FollowedLexically(disk, Above(destDir, name), Split('/', linkname), hops);
  }

  // ----- links that climb first -----

  predicate IsName(part: string) {
    part != "" && part != "." && part != ".."
  }

  predicate NoClimb(parts: seq<string>) {
    forall i | 0 <= i < |parts| :: parts[i] != ".."
  }

  /** Every ".." comes before the first name. */
  predicate ClimbsFirst(parts: seq<string>) {
    parts == [] || (if IsName(parts[0]) then NoClimb(parts[1..]) else ClimbsFirst(parts[1..]))
  }

  /** How many times the path goes up. */
  function Climb(parts: seq<string>): nat {
    if parts == [] then 0 else (if parts[0] == ".." then 1 else 0) + Climb(parts[1..])
  }

  /** From a directory so deep below the root, the path does not go up past the root. */
  predicate StaysLow(parts: seq<string>, depth: int) {
    ClimbsFirst(parts) && Climb(parts) <= depth
  }

  lemma {:induction false} LevelPath(parts: seq<string>)
    requires NoClimb(parts)
    ensures ClimbsFirst(parts) && Climb(parts) == 0
  {
    if parts != [] {
      LevelPath(parts[1..]);
    }
  }

  lemma {:induction false} ThenLevel(parts: seq<string>, rest: seq<string>)
    requires ClimbsFirst(parts) && NoClimb(rest)
    ensures ClimbsFirst(parts + rest) && Climb(parts + rest) == Climb(parts)
  {
    if parts == [] {
      assert parts + rest == rest;
      LevelPath(rest);
    } else {
      assert (parts + rest)[0] == parts[0] && (parts + rest)[1..] == parts[1..] + rest;
      if IsName(parts[0]) {
        LevelPath(parts[1..]);
        LevelPath(parts[1..] + rest);
      } else {
        ThenLevel(parts[1..], rest);
      }
    }
  }

  predicate LinkStaysLow(linkname: string, depth: int) {
    !IsAbs(linkname) && StaysLow(Split('/', linkname), depth)
  }

  /** Every link at or below the root is relative and stays low from where it lies. */
  ghost predicate LinksStayLow(disk: Disk, root: Location) {
    forall l :: LinkIsLow(disk, root, l)
  }

  predicate LinkIsLow(disk: Disk, root: Location, l: Location) {
    root <= l && IsLink(disk, l) ==> root < l && LinkStaysLow(disk[l].linkname, |l| - 1 - |root|)
  }

  lemma LinkThenRest(disk: Disk, root: Location, at: Location, name: string, rest: seq<string>)
    requires LinksStayLow(disk, root) && root <= at && IsLink(disk, at + [name]) && NoClimb(rest)
    ensures !IsAbs(disk[at + [name]].linkname)
    ensures StaysLow(Split('/', disk[at + [name]].linkname) + rest, |at| - |root|)
  {
    assert root <= at + [name] && LinkIsLow(disk, root, at + [name]);
    ThenLevel(Split('/', disk[at + [name]].linkname), rest);
  }

  /** Then no path that itself stays low leaves the root, through any chain of links. */
  lemma {:induction false} NeverLeaves(disk: Disk, root: Location, at: Location, parts: seq<string>, hops: nat)
    requires LinksStayLow(disk, root) && root <= at && StaysLow(parts, |at| - |root|)
    requires Follow(disk, at, parts, hops).Some?
    ensures root <= Follow(disk, at, parts, hops).value
    decreases hops, |parts|
  {
    if parts != [] {
      if !IsName(parts[0]) {
        var at' := if parts[0] == ".." then at[..|at| - 1] else at;
        LowOnTheSpot(disk, root, at, parts, hops);
        NeverLeaves(disk, root, at', parts[1..], hops);
      } else if IsLink(disk, at + [parts[0]]) {
        var parts' := Split('/', disk[at + [parts[0]]].linkname) + parts[1..];
        LowThroughLink(disk, root, at, parts, hops);
        NeverLeaves(disk, root, at, parts', hops - 1);
      } else {
        LowInto(disk, root, at, parts, hops);
        NeverLeaves(disk, root, at + [parts[0]], parts[1..], hops);
      }
    }
  }

  /** One step of such a lookup leaves another such lookup to be done: after "..", or
      nothing. */
  lemma LowOnTheSpot(disk: Disk, root: Location, at: Location, parts: seq<string>, hops: nat)
    requires root <= at && StaysLow(parts, |at| - |root|)
    requires parts != [] && !IsName(parts[0]) && Follow(disk, at, parts, hops).Some?
    ensures parts[0] == ".." ==> |at| > 0
    ensures var at' := if parts[0] == ".." then at[..|at| - 1] else at;
            && root <= at' && StaysLow(parts[1..], |at'| - |root|)
            && Follow(disk, at', parts[1..], hops) == Follow(disk, at, parts, hops)
  {
    LowStep(parts, |at| - |root|);
    FollowStep(disk, at, parts, hops);
  }

  /** Through a link. */
  lemma LowThroughLink(disk: Disk, root: Location, at: Location, parts: seq<string>, hops: nat)
    requires LinksStayLow(disk, root) && root <= at && StaysLow(parts, |at| - |root|)
    requires parts != [] && IsName(parts[0]) && IsLink(disk, at + [parts[0]]) && Follow(disk, at, parts, hops).Some?
    ensures var parts' := Split('/', disk[at + [parts[0]]].linkname) + parts[1..];
            && StaysLow(parts', |at| - |root|)
            && hops > 0 && Follow(disk, at, parts', hops - 1) == Follow(disk, at, parts, hops)
  {
    LowStep(parts, |at| - |root|);
    FollowStep(disk, at, parts, hops);
    LinkThenRest(disk, root, at, parts[0], parts[1..]);
  }

  /** Into a directory. */
  lemma LowInto(disk: Disk, root: Location, at: Location, parts: seq<string>, hops: nat)
    requires root <= at && StaysLow(parts, |at| - |root|)
    requires parts != [] && IsName(parts[0]) && !IsLink(disk, at + [parts[0]]) && Follow(disk, at, parts, hops).Some?
    ensures var at' := at + [parts[0]];
            && root <= at' && StaysLow(parts[1..], |at'| - |root|)
            && Follow(disk, at', parts[1..], hops) == Follow(disk, at, parts, hops)
  {
    LowStep(parts, |at| - |root|);
    FollowStep(disk, at, parts, hops);
    LevelPath(parts[1..]);
  }

  lemma FollowStep(disk: Disk, at: Location, parts: seq<string>, hops: nat)
    requires parts != [] && Follow(disk, at, parts, hops).Some?
    ensures var rest, next, to := parts[1..], at + [parts[0]], Follow(disk, at, parts, hops);
            && (parts[0] == "" || parts[0] == "." ==> to == Follow(disk, at, rest, hops))
            && (parts[0] == ".." && at != [] ==> to == Follow(disk, at[..|at| - 1], rest, hops))
            && (IsName(parts[0]) && IsLink(disk, next) && !IsAbs(disk[next].linkname) ==>
                  hops > 0 && to == Follow(disk, at, Split('/', disk[next].linkname) + rest, hops - 1))
            && (IsName(parts[0]) && !IsLink(disk, next) ==> to == Follow(disk, next, rest, hops))
  {
  }

  lemma LowStep(parts: seq<string>, depth: int)
    requires parts != [] && StaysLow(parts, depth)
    ensures parts[0] == ".." ==> depth > 0 && StaysLow(parts[1..], depth - 1)
    ensures parts[0] == "" || parts[0] == "." ==> StaysLow(parts[1..], depth)
    ensures IsName(parts[0]) ==> NoClimb(parts[1..])
  {
  }

  /** The link entries of the archive stay low, by their own text and place. */
  ghost predicate EntriesStayLow(items: seq<Item>) {
    forall i | 0 <= i < |items| && items[i].kind.Symlink? ::
      items[i].names != [] && LinkStaysLow(items[i].kind.linkname, |items[i].names| - 1)
  }

  lemma EntriesMakeLowLinks(before: Disk, disk: Disk, dir: Location, base: string, items: seq<Item>)
    requires OnDisk(before, disk, dir, base, items) && EntriesStayLow(items)
    ensures LinksStayLow(disk, dir + [base])
  {
    forall l | dir + [base] <= l && IsLink(disk, l)
      ensures dir + [base] < l && LinkStaysLow(disk[l].linkname, |l| - 1 - |dir + [base]|)
    {
      assert LinkOn(disk, l) == LinkAt(dir, base, items, l);
      LowLinkAt(dir, base, items, l);
    }
  }

  lemma LowLinkAt(dir: Location, base: string, items: seq<Item>, l: Location)
    requires LinkAt(dir, base, items, l).Some? && EntriesStayLow(items)
    ensures dir + [base] < l && LinkStaysLow(LinkAt(dir, base, items, l).value, |l| - 1 - |dir + [base]|)
  {
    LinkAtIsEntry(dir, base, items, l);
    var j: nat :| IsLinkEntry(dir, base, items, j, l, LinkAt(dir, base, items, l).value);
    PlaceIsDeeper(dir, base, items[j]);
  }

  lemma PlaceIsDeeper(dir: Location, base: string, item: Item)
    requires item.names != []
    ensures dir + [base] < Place(dir, base, item) && |Place(dir, base, item)| - 1 - |dir + [base]| == |item.names| - 1
  {
    assert Place(dir, base, item) == dir + [base] + item.names;
  }

  /** A whole archive: with no entry beneath an earlier link, and targets that climb before
      their first name and not past the root, whatever is looked up in it from inside
      stays inside, the targets of its links first of all. */
  lemma ArchiveStaysInside(
    disk: Disk, dir: Location, base: string, items: seq<Item>, at: Location, parts: seq<string>, hops: nat)
    requires Fresh(disk, dir + [base]) && WriteAll(disk, dir, base, items, hops).Some?
    requires NoneBeneathLink(items) && EntriesStayLow(items)
    requires dir + [base] <= at && StaysLow(parts, |at| - |dir + [base]|)
    ensures var to := Follow(WriteAll(disk, dir, base, items, hops).value, at, parts, hops);
            to.Some? ==> dir + [base] <= to.value
  {
    var after := WriteAll(disk, dir, base, items, hops).value;
    WritesStayInside(disk, dir, base, items, hops);
    EntriesMakeLowLinks(disk, after, dir, base, items);
    if Follow(after, at, parts, hops).Some? {
      NeverLeaves(after, dir + [base], at, parts, hops);
    }
  }

  lemma LinkTargetsStayInside(disk: Disk, dir: Location, base: string, items: seq<Item>, j: nat, hops: nat)
    requires Fresh(disk, dir + [base]) && WriteAll(disk, dir, base, items, hops).Some?
    requires NoneBeneathLink(items) && EntriesStayLow(items) && j < |items| && items[j].kind.Symlink?
    ensures var at := dir + ParentNames(base, items[j]);
            var to := Follow(WriteAll(disk, dir, base, items, hops).value, at, Split('/', items[j].kind.linkname),
                             hops);
            to.Some? ==> dir + [base] <= to.value
  {
    var at := dir + ParentNames(base, items[j]);
    assert at == dir + [base] + items[j].names[..|items[j].names| - 1];
    ArchiveStaysInside(disk, dir, base, items, at, Split('/', items[j].kind.linkname), hops);
  }

  // ----- a link that is accepted and leads elsewhere -----

  const HERE := Header("here", Symlink("."))
  const THERE := Header("there", Symlink("here/../x"))

  lemma ExampleRoot()
    ensures Elements("/t/r") == ["t", "r"] && IsAbs("/t/r")
  {
    assert Joined('/', ["t", "r"]) == "t/r" && Render(true, ["t", "r"]) == "/t/r";
    RenderedElements(true, ["t", "r"]);
  }

  lemma ExampleNames()
    ensures Elements("here") == ["here"] && Elements("there") == ["there"]
    ensures !IsAbs("here") && !IsAbs("there") && !IsAbs(".") && !IsAbs("here/../x")
  {
    RenderedElements(false, ["here"]);
    RenderedElements(false, ["there"]);
  }

  lemma ExampleTargets()
    ensures Split('/', ".") == ["."] && Split('/', "here/../x") == ["here", "..", "x"]
  {
    SplitWhole('/', ".");
    assert ["here", "..", "x"][1..] == ["..", "x"] && ["..", "x"][1..] == ["x"];
    assert Joined('/', ["here", "..", "x"]) == "here/../x";
    SplitJoined('/', ["here", "..", "x"]);
  }

  lemma ExampleAccepted(name: string, linkname: string)
    requires Elements(name) == [name] && !IsAbs(name) && name != ".." && linkname != "" && !IsAbs(linkname)
    requires NeverAbove(Split('/', linkname), 0)
    ensures CheckEntry("/t/r", Header(name, Symlink(linkname))).Some?
  {
    ExampleRoot();
    SafeJoinIff("/t/r", name);
    TargetByLevel("/t/r", name, linkname);
  }

  lemma ExampleLevels()
    ensures NeverAbove(["."], 0) && NeverAbove(["here", "..", "x"], 0)
  {
    var parts := ["here", "..", "x"];
    assert Level([]) == 0;
    LevelOfOneMore([], ".");
    LevelOfOneMore([], "here");
    LevelOfOneMore(["here"], "..");
    LevelOfOneMore(["here", ".."], "x");
    assert [] + ["."] == ["."] && [] + ["here"] == ["here"] && ["here"] + [".."] == ["here", ".."];
    assert ["here", ".."] + ["x"] == parts;
    assert parts[..0] == [] && parts[..1] == ["here"] && parts[..2] == ["here", ".."] && parts[..3] == parts;
    assert ["."][..0] == [] && ["."][..1] == ["."];
  }

  lemma LevelOfOneMore(parts: seq<string>, last: string)
    ensures Level(parts + [last]) ==
            Level(parts) + if last == "" || last == "." then 0 else if last == ".." then -1 else 1
  {
    assert (parts + [last])[..|parts|] == parts;
  }

  lemma ExampleItems()
    ensures ItemsOf([HERE, THERE]) == [Item(["here"], HERE.kind), Item(["there"], THERE.kind)]
    ensures NoneBeneathLink(ItemsOf([HERE, THERE]))
  {
    ExampleNames();
    var items := [Item(["here"], HERE.kind), Item(["there"], THERE.kind)];
    assert ItemsOf([HERE, THERE]) == items;
    forall i: nat | i < 2
      ensures !BeneathLink(items, i)
    {
      assert |items[0].names| == |items[i].names|;
    }
  }

  lemma HereIsAccepted()
    ensures CheckEntry("/t/r", HERE).Some?
  {
    ExampleNames();
    ExampleTargets();
    ExampleLevels();
    ExampleAccepted("here", ".");
  }

  lemma ThereIsAccepted()
    ensures CheckEntry("/t/r", THERE).Some?
  {
    ExampleNames();
    ExampleTargets();
    ExampleLevels();
    ExampleAccepted("there", "here/../x");
  }

  const EXAMPLE: Disk := map[["t", "r"] := Dir, ["t", "x"] := Dir]
  const UNPACKED: Disk := EXAMPLE[["t", "r", "here"] := Link(".")][["t", "r", "there"] := Link("here/../x")]

  lemma ExampleIsFresh()
    ensures Fresh(EXAMPLE, ["t", "r"])
  {
  }

  /** Two links, each accepted, and neither beneath the other: cleaned as text the second
      leads to a neighbour of the first; on the disk it climbs from where the first leads,
      and arrives outside the root. */
  lemma AcceptedLinkLeadsOut(hops: nat)
    requires hops > 0
    ensures CheckEntry("/t/r", HERE).Some? && CheckEntry("/t/r", THERE).Some? && NoneBeneathLink(ItemsOf([HERE, THERE]))
    ensures Fresh(EXAMPLE, ["t", "r"]) && WriteAll(EXAMPLE, ["t"], "r", ItemsOf([HERE, THERE]), hops) == Some(UNPACKED)
    ensures Follow(UNPACKED, ["t", "r"], Split('/', "here/../x"), hops) == Some(["t", "x"])
  {
    HereIsAccepted();
    ThereIsAccepted();
    ExampleItems();
    ExampleIsFresh();
    ExampleWritten(EXAMPLE, hops);
    ExampleTargets();
    ExampleFollowed(UNPACKED, hops);
  }

  lemma ExampleWritten(disk: Disk, hops: nat)
    requires disk == map[["t", "r"] := Dir, ["t", "x"] := Dir]
    ensures WriteAll(disk, ["t"], "r", ItemsOf([HERE, THERE]), hops) ==
            Some(disk[["t", "r", "here"] := Link(".")][["t", "r", "there"] := Link("here/../x")])
  {
    ExampleItems();
    var items := [Item(["here"], HERE.kind), Item(["there"], THERE.kind)];
    var one := disk[["t", "r", "here"] := Link(".")];
    assert ["t", "r"] + ["here"] == ["t", "r", "here"] && ["t", "r"] + ["there"] == ["t", "r", "there"];
    assert |"there"| != |"here"| && ["t", "r", "there"][2] != ["t", "r", "here"][2];
    TopLevelLink(disk, items[0], hops);
    TopLevelLink(one, items[1], hops);
    assert items[..1] == [items[0]] && items[..1][..0] == [];
    assert WriteAll(disk, ["t"], "r", [], hops) == Some(disk);
    assert WriteAll(disk, ["t"], "r", items[..1], hops) == Some(one);
  }

  lemma TopLevelLink(disk: Disk, item: Item, hops: nat)
    requires IsDir(disk, ["t", "r"]) && |item.names| == 1 && item.kind.Symlink? && ["t", "r"] + item.names !in disk
    ensures WriteEntry(disk, ["t"], "r", item, hops) ==
            Some(disk[["t", "r", item.names[0]] := Link(item.kind.linkname)])
  {
    assert ParentNames("r", item) == ["r"] && LastName("r", item) == item.names[0];
    assert ["t"] + ["r"] == ["t", "r"] && ["t", "r"] + [item.names[0]] == ["t", "r", item.names[0]];
    assert item.names == [item.names[0]] && ["r"][1..] == [];
    assert MkdirAll(disk, ["t", "r"], [], hops) == Some(Made(disk, ["t", "r"]));
    assert MkdirAll(disk, ["t"], ["r"], hops) == Some(Made(disk, ["t", "r"]));
  }

  lemma ExampleFollowed(disk: Disk, hops: nat)
    requires hops > 0 && IsDir(disk, ["t", "x"]) && ["t", "r", "here"] in disk && disk[["t", "r", "here"]] == Link(".")
    ensures Follow(disk, ["t", "r"], ["here", "..", "x"], hops) == Some(["t", "x"])
  {
    ExampleTargets();
    var root := ["t", "r"];
    assert root + ["here"] == ["t", "r", "here"] && ["t"] + ["x"] == ["t", "x"] && root[..1] == ["t"];
    assert ["here", "..", "x"][1..] == ["..", "x"] && ["."] + ["..", "x"] == [".", "..", "x"];
    assert [".", "..", "x"][1..] == ["..", "x"] && ["..", "x"][1..] == ["x"] && ["x"][1..] == [];
    assert Follow(disk, ["t", "x"], [], hops - 1) == Some(["t", "x"]);
    assert Follow(disk, ["t"], ["x"], hops - 1) == Some(["t", "x"]);
    assert Follow(disk, root, ["..", "x"], hops - 1) == Some(["t", "x"]);
    assert Follow(disk, root, [".", "..", "x"], hops - 1) == Some(["t", "x"]);
  }
}
