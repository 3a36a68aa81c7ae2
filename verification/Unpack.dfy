/** Which entries of a plugin archive are accepted (internal/plugarchive/plugarchive.go).
    Containment is lexical, as in the source: paths are cleaned, not looked up.  What
    that comes to on a disk with links is in UnpackDisk. */
module Unpack {
  import opened LexicalPath
  import opened Strings

  // ----- string prefixes and lists of names -----

  /** One rendered list starts with another and a slash exactly when the list does. */
  lemma {:induction false} PrefixIff(p: seq<string>, names: seq<string>)
    requires p != [] && (forall i | 0 <= i < |p| :: Name(p[i])) && forall i | 0 <= i < |names| :: Name(names[i])
    ensures HasPrefix(Joined('/', names), Joined('/', p) + "/") <==> p < names
  {
    var s, head := Joined('/', names), Joined('/', p) + "/";
    if HasPrefix(s, head) {
      var rest := s[|head|..];
      assert s == Joined('/', p) + "/" + rest;
      SplitAt('/', Joined('/', p), rest);
      SplitJoined('/', p);
      assert names != [];
      SplitJoined('/', names);
      assert names == p + Split('/', rest);
    }
    if p < names {
      var q := names[|p|..];
      assert names == p + q;
      JoinedConcat('/', p, q);
      assert s == head + Joined('/', q);
    }
  }

  // ----- where an entry is written -----

  function SafeJoin(destDir: string, name: string): Option<string> {
    var cleaned := Clean(name);
    if IsAbs(cleaned) || cleaned == ".." || HasPrefix(cleaned, "../") then None else Some(Join(destDir, cleaned))
  }

  /** names lies at the root or below it: it extends the root's names, and not by
      climbing out of them. */
  predicate Below(root: seq<string>, names: seq<string>) {
    root <= names && (|root| < |names| ==> names[|root|] != "..")
  }

  lemma RelativeNames(name: string)
    requires !IsAbs(name)
    ensures Clean(name) == ".." || HasPrefix(Clean(name), "../") <==> Elements(name) != [] && Elements(name)[0] == ".."
  {
    ElementsAreCleaned(name);
    var names := Elements(name);
    if names != [] {
      PrefixIff([".."], names);
      assert Joined('/', [".."]) == "..";
      if Joined('/', names) == ".." {
        JoinedIsInjective('/', names, [".."]);
      }
      if |names| > 1 && names[0] == ".." {
        assert [".."] < names;
      }
    }
  }

  /** Joining with a cleaned relative path resolves its names from the directory. */
  lemma JoinElements(dir: string, name: string)
    requires dir != "" && !IsAbs(name)
    ensures IsAbs(Join(dir, Clean(name))) == IsAbs(dir)
    ensures Elements(Join(dir, Clean(name))) == ResolveAll(IsAbs(dir), Elements(dir), Elements(name))
  {
    var cleaned, names := Clean(name), Elements(name);
    ElementsAreCleaned(name);
    var path := dir + "/" + cleaned;
    assert IsAbs(path) == IsAbs(dir);
    SplitAt('/', dir, cleaned);
    ResolveConcat(IsAbs(dir), [], Split('/', dir), Split('/', cleaned));
    if names != [] {
      JoinedStarts(names);
      SplitJoined('/', names);
    } else {
      SplitWhole('/', ".");
      assert ResolveAll(IsAbs(dir), Elements(dir), ["."]) == ResolveAll(IsAbs(dir), Elements(dir), []);
    }
    CleanedElements(path);
  }

  /** An entry is accepted exactly when its name is relative and does not climb out;
      it then lands at the directory's elements followed by its own. */
  lemma SafeJoinIff(destDir: string, name: string)
    requires destDir != ""
    ensures SafeJoin(destDir, name).Some? <==> !IsAbs(name) && Below([], Elements(name))
    ensures SafeJoin(destDir, name).Some? ==>
              var target := SafeJoin(destDir, name).value;
              && IsAbs(target) == IsAbs(destDir)
              && Elements(target) == Elements(destDir) + Elements(name)
              && Below(Elements(destDir), Elements(target))
  {
    CleanedElements(name);
    if !IsAbs(name) {
      RelativeNames(name);
      if SafeJoin(destDir, name).Some? {
        JoinElements(destDir, name);
        ElementsAreCleaned(name);
        ElementsAreCleaned(destDir);
        var names := Elements(name);
        assert forall i | 0 <= i < |names| :: names[i] != "..";
        ResolveNames(IsAbs(destDir), Elements(destDir), names);
      }
    }
  }

  // ----- the same by counting -----

  /** How far below its start a path ends, going down for a name and up for "..". */
  function Level(parts: seq<string>): int {
    if parts == [] then 0
    else
      var last := parts[|parts| - 1];
      Level(parts[..|parts| - 1]) + if last == "" || last == "." then 0 else if last == ".." then -1 else 1
  }

  /** At no point on its way is the path above where depth steps up lead. */
  ghost predicate NeverAbove(parts: seq<string>, depth: int) {
    forall k | 0 <= k <= |parts| :: Level(parts[..k]) >= -depth
  }

  /** Resolving from below some directory, without ever going up past it, ends below it. */
  lemma {:induction false} ResolvedBelow(rooted: bool, base: seq<string>, names: seq<string>, parts: seq<string>)
    requires base <= names && (forall i | |base| <= i < |names| :: names[i] != "..")
    requires NeverAbove(parts, |names| - |base|)
    ensures var r := ResolveAll(rooted, names, parts);
            && base <= r && |r| == |names| + Level(parts)
            && (forall i | |base| <= i < |r| :: r[i] != "..")
    decreases |parts|
  {
    if parts != [] {
      var n := |parts| - 1;
      assert parts == parts[..n] + [parts[n]] && parts[..n + 1] == parts;
      assert forall k | 0 <= k <= n :: parts[..n][..k] == parts[..k];
      ResolvedBelow(rooted, base, names, parts[..n]);
      ResolveConcat(rooted, names, parts[..n], [parts[n]]);
      var r := ResolveAll(rooted, names, parts[..n]);
      assert ResolveAll(rooted, names, parts) == Resolve(rooted, r, parts[n]);
      assert Level(parts[..n + 1]) >= |base| - |names|;
    }
  }

  /** A relative path that goes up past its start keeps a ".." in front. */
  lemma {:induction false} ResolvedAbove(parts: seq<string>, k: nat)
    requires k <= |parts| && Level(parts[..k]) < 0
    ensures ResolveAll(false, [], parts) != [] && ResolveAll(false, [], parts)[0] == ".."
    decreases |parts|
  {
    var n := |parts| - 1;
    assert parts == parts[..n] + [parts[n]];
    ResolveConcat(false, [], parts[..n], [parts[n]]);
    if k <= n {
      assert parts[..n][..k] == parts[..k];
      ResolvedAbove(parts[..n], k);
      KeepsDots(ResolveAll(false, [], parts[..n]), parts[n]);
    } else {
      assert parts[..k] == parts;
      if NeverAbove(parts[..n], 0) {
        ResolvedBelow(false, [], [], parts[..n]);
        assert parts[..n][..n] == parts[..n];
      } else {
        var m :| 0 <= m <= n && Level(parts[..n][..m]) < 0;
        ResolvedAbove(parts[..n], m);
        KeepsDots(ResolveAll(false, [], parts[..n]), parts[n]);
      }
    }
  }

  lemma KeepsDots(names: seq<string>, part: string)
    requires names != [] && names[0] == ".."
    ensures Resolve(false, names, part) != [] && Resolve(false, names, part)[0] == ".."
  {
  }

  /** An entry name is accepted exactly if it is relative and at no point has gone up more
      often than down; it then names as many elements as it has gone down in the end. */
  lemma SafeJoinByLevel(destDir: string, name: string)
    requires destDir != ""
    ensures SafeJoin(destDir, name).Some? <==> !IsAbs(name) && NeverAbove(Split('/', name), 0)
    ensures SafeJoin(destDir, name).Some? ==>
              |Elements(SafeJoin(destDir, name).value)| == |Elements(destDir)| + Level(Split('/', name))
  {
    SafeJoinIff(destDir, name);
    var parts := Split('/', name);
    if NeverAbove(parts, 0) {
      ResolvedBelow(false, [], [], parts);
    } else if !IsAbs(name) {
      var k :| 0 <= k <= |parts| && Level(parts[..k]) < 0;
      ResolvedAbove(parts, k);
    }
  }

  // ----- where a link points -----

  /** filepath.Dir: everything up to the last slash, cleaned. */
  function Dir(path: string): string {
    var parts := Split('/', path);
    Clean(Joined('/', parts[..|parts| - 1] + [""]))
  }

  function CheckSymlinkTarget(root: string, target: string, linkname: string): bool {
    if linkname == "" then false
    else
      var cleanedLink := Clean(linkname);
      if IsAbs(cleanedLink) then false
      else
        var resolved := Clean(Join(Dir(target), cleanedLink));
        var cleanedRoot := Clean(root);
        resolved == cleanedRoot || HasPrefix(resolved, cleanedRoot + "/")
  }

  /** The names of the directory a path lies in. */
  function Parent(path: string): seq<string> {
    var parts := Split('/', path);
    ResolveAll(IsAbs(path), [], parts[..|parts| - 1])
  }

  /** What a relative link means: its elements, one by one, from that directory. */
  function Destination(target: string, linkname: string): seq<string> {
    ResolveAll(IsAbs(target), Parent(target), Split('/', linkname))
  }

  lemma {:induction false} SplitAbs(path: string)
    ensures IsAbs(path) <==> |Split('/', path)| > 1 && Split('/', path)[0] == ""
  {
  }

  lemma DirElements(path: string)
    ensures Dir(path) != "" && IsAbs(Dir(path)) == IsAbs(path) && Elements(Dir(path)) == Parent(path)
  {
    var parts := Split('/', path);
    var init := parts[..|parts| - 1];
    SplitParts('/', path);
    var up := Joined('/', init + [""]);
    SplitJoined('/', init + [""]);
    SplitAbs(path);
    SplitAbs(up);
    ResolveConcat(IsAbs(path), [], init, [""]);
    CleanedElements(up);
    ElementsAreCleaned(up);
    if !IsAbs(up) && Elements(up) != [] {
      JoinedStarts(Elements(up));
    }
  }

  /** Resolving a relative path cleaned beforehand ends where resolving it raw does. */
  lemma {:induction false} CleanFirst(rooted: bool, names: seq<string>, parts: seq<string>, i: nat)
    requires i <= |parts|
    ensures ResolveAll(rooted, names, ResolveAll(false, [], parts[..i])) == ResolveAll(rooted, names, parts[..i])
    decreases i
  {
    if i > 0 {
      var p, before := parts[i - 1], parts[..i - 1];
      CleanFirst(rooted, names, parts, i - 1);
      assert parts[..i] == before + [p];
      ResolveConcat(false, [], before, [p]);
      ResolveConcat(rooted, names, before, [p]);
      CleanStep(rooted, names, before, p);
    }
  }

  /** Resolving one more part after the cleaned ones, or cleaning it with them. */
  lemma CleanStep(rooted: bool, names: seq<string>, before: seq<string>, p: string)
    ensures var c := ResolveAll(false, [], before);
            ResolveAll(rooted, names, Resolve(false, c, p)) == Resolve(rooted, ResolveAll(rooted, names, c), p)
  {
    var c := ResolveAll(false, [], before);
    var c' := Resolve(false, c, p);
    if c' == c + [p] {
      ResolveConcat(rooted, names, c, [p]);
    } else if c' != c {
      var x := c[|c| - 1];
      assert c == c' + [x];
      ResolveConcat(rooted, names, c', [x]);
      ResolvedNamesStayNames(before);
      assert x in c && Resolve(rooted, ResolveAll(rooted, names, c'), x) == ResolveAll(rooted, names, c') + [x];
    }
  }

  lemma {:induction false} ResolvedNamesStayNames(parts: seq<string>)
    ensures forall n | n in ResolveAll(false, [], parts) :: n != "" && n != "."
  {
    StayNames([], parts);
  }

  lemma {:induction false} StayNames(names: seq<string>, parts: seq<string>)
    requires forall n | n in names :: n != "" && n != "."
    ensures forall n | n in ResolveAll(false, names, parts) :: n != "" && n != "."
    decreases |parts|
  {
    if parts != [] {
      StayNames(Resolve(false, names, parts[0]), parts[1..]);
    }
  }

  /** The path the check computes has the destination's names. */
  lemma ResolvedElements(target: string, linkname: string)
    requires !IsAbs(linkname)
    ensures var resolved := Clean(Join(Dir(target), Clean(linkname)));
            IsAbs(resolved) == IsAbs(target) && Elements(resolved) == Destination(target, linkname)
  {
    DirElements(target);
    JoinElements(Dir(target), linkname);
    var parts := Split('/', linkname);
    assert parts[..|parts|] == parts;
    CleanFirst(IsAbs(target), Parent(target), parts, |parts|);
    CleanedElements(Join(Dir(target), Clean(linkname)));
  }

  /** The root ends in a name, as every directory made by MkdirTemp does; not so for
      the file system root, for "." and for a chain of "..". */
  predicate Anchored(root: string) {
    var names := Elements(root);
    names != [] && names[|names| - 1] != ".."
  }

  /** The comparison of strings in the check, by names. */
  lemma ComparedByNames(rooted: bool, root: seq<string>, names: seq<string>)
    requires Cleaned(rooted, root) && Cleaned(rooted, names)
    ensures root != [] ==>
              (Render(rooted, names) == Render(rooted, root) ||
               HasPrefix(Render(rooted, names), Render(rooted, root) + "/")
               <==> root <= names)
    ensures root == [] ==>
              (Render(rooted, names) == Render(rooted, root) ||
               HasPrefix(Render(rooted, names), Render(rooted, root) + "/")
               <==> names == [])
  {
    var path, base := Render(rooted, names), Render(rooted, root);
    RenderedElements(rooted, names);
    RenderedElements(rooted, root);
    assert path == base <==> names == root;
    if names != [] {
      JoinedStarts(names);
      SplitJoined('/', names);
    }
    if root != [] {
      JoinedStarts(root);
      PrefixIff(root, names);
      if rooted {
        assert HasPrefix(path, base + "/") <==> HasPrefix(Joined('/', names), Joined('/', root) + "/");
      } else if names == [] {
        assert Name(root[0]) && base[0] == root[0][0];
        DotIsNoPrefix(base);
      }
    } else if names == [] {
      assert |path| == 1;
    } else if |names[0]| > 1 {
      assert Joined('/', names)[1] == names[0][1];
      assert names[0][1] in names[0];
    }
  }

  lemma DotIsNoPrefix(base: string)
    requires |base| > 0
    ensures !HasPrefix(".", base + "/")
  {
  }

  /** A link is accepted exactly when it is not empty, relative, and lands at the root
      or below it: for every link and target when the root is anchored. */
  lemma AcceptedIff(root: string, target: string, linkname: string)
    requires IsAbs(target) == IsAbs(root) && Anchored(root)
    ensures CheckSymlinkTarget(root, target, linkname) <==>
            linkname != "" && !IsAbs(linkname) && Below(Elements(root), Destination(target, linkname))
  {
    CleanedElements(linkname);
    if linkname != "" && !IsAbs(linkname) {
      ResolvedElements(target, linkname);
      var names := Destination(target, linkname);
      var resolved := Join(Dir(target), Clean(linkname));
      CleanedElements(resolved);
      ElementsAreCleaned(resolved);
      ElementsAreCleaned(root);
      assert Clean(resolved) == Render(IsAbs(root), names);
      ComparedByNames(IsAbs(root), Elements(root), names);
      var r := Elements(root);
      if r <= names {
        assert names[|r| - 1] == r[|r| - 1] != "..";
      }
    }
  }

  /** The check decides containment for every link in every accepted place. */
  ghost predicate DecidesContainment(root: string) {
    forall target, linkname | IsAbs(target) == IsAbs(root) ::
      CheckSymlinkTarget(root, target, linkname) <==>
      linkname != "" && !IsAbs(linkname) && Below(Elements(root), Destination(target, linkname))
  }

  /** Exactly the anchored roots: under "/" and "." a link to a sibling is refused,
      and under a chain of ".." a link one level up is let through. */
  lemma DecidesIffAnchored(root: string)
    ensures DecidesContainment(root) <==> Anchored(root)
  {
    if Anchored(root) {
      forall target, linkname | IsAbs(target) == IsAbs(root)
        ensures CheckSymlinkTarget(root, target, linkname) <==>
                linkname != "" && !IsAbs(linkname) && Below(Elements(root), Destination(target, linkname))
      {
        AcceptedIff(root, target, linkname);
      }
    } else if Elements(root) == [] {
      var target := if IsAbs(root) then "/a" else "a";
      SiblingRefused(root, target);
      assert !DecidesContainment(root);
    } else {
      ClimbAccepted(root);
      assert !DecidesContainment(root);
    }
  }

  lemma SiblingRefused(root: string, target: string)
    requires Elements(root) == [] && target == if IsAbs(root) then "/a" else "a"
    ensures Below(Elements(root), Destination(target, "b")) && !CheckSymlinkTarget(root, target, "b")
  {
    SplitWhole('/', "a");
    SplitWhole('/', "b");
    SplitStep('/', '/', "a");
    assert ['/'] + "a" == "/a";
    assert Parent(target) == [];
    assert Destination(target, "b") == ["b"];
    CleanedElements("b");
    ResolvedElements(target, "b");
    var resolved := Join(Dir(target), Clean("b"));
    CleanedElements(resolved);
    ComparedByNames(IsAbs(root), [], ["b"]);
  }

  lemma ClimbAccepted(root: string)
    requires Elements(root) != [] && !Anchored(root)
    ensures exists target :: IsAbs(target) == IsAbs(root) && CheckSymlinkTarget(root, target, "..")
                             && !Below(Elements(root), Destination(target, ".."))
  {
    ElementsAreCleaned(root);
    var names := Elements(root);
    var target := Render(false, names + ["a"]);
    assert forall i | 0 <= i < |names| :: names[i] == "..";
    RenderedElements(false, names + ["a"]);
    SplitJoined('/', names + ["a"]);
    ResolveCleaned(false, names, |names|);
    assert names[..|names|] == names && (names + ["a"])[..|names|] == names;
    assert Parent(target) == names;
    SplitWhole('/', "..");
    assert names[|names| - 1] == ".." && Resolve(false, names, "..") == names + [".."];
    assert [".."][1..] == [];
    assert !IsAbs(target) && Destination(target, "..") == names + [".."];
    CleanedElements("..");
    ResolvedElements(target, "..");
    var resolved := Join(Dir(target), Clean(".."));
    CleanedElements(resolved);
    ComparedByNames(false, names, names + [".."]);
  }

  // ----- the whole archive -----

  datatype Kind = Directory | Regular | Symlink(linkname: string) | Special

  datatype Header = Header(name: string, kind: Kind)

  /** A path lexically at or below the directory being unpacked into. */
  ghost predicate Contained(destDir: string, path: string) {
    IsAbs(path) == IsAbs(destDir) && Below(Elements(destDir), Elements(path))
  }

  /** The entry's name does not leave the directory, nor does the link it may be. */
  ghost predicate Acceptable(destDir: string, header: Header) {
    && !IsAbs(header.name) && Below([], Elements(header.name))
    && (header.kind.Symlink? ==>
          var linkname, target := header.kind.linkname, SafeJoin(destDir, header.name);
          && linkname != "" && !IsAbs(linkname)
          && target.Some? && Below(Elements(destDir), Destination(target.value, linkname)))
  }

  /** The entry was acceptable and path is its path, lexically inside the directory; if it
      is a link, it points lexically inside as well. */
  ghost predicate Placed(destDir: string, header: Header, path: string) {
    && Acceptable(destDir, header)
    && SafeJoin(destDir, header.name) == Some(path)
    && Contained(destDir, path)
    && (header.kind.Symlink? ==> Below(Elements(destDir), Destination(path, header.kind.linkname)))
  }

  function CheckEntry(destDir: string, header: Header): Option<string> {
    match SafeJoin(destDir, header.name)
    case None => None
    case Some(target) =>
      if header.kind.Symlink? && !CheckSymlinkTarget(destDir, target, header.kind.linkname) then None else Some(target)
  }

  lemma CheckEntryIff(destDir: string, header: Header)
    requires destDir != "" && Anchored(destDir)
    ensures CheckEntry(destDir, header).Some? <==> Acceptable(destDir, header)
    ensures CheckEntry(destDir, header).Some? ==> Placed(destDir, header, CheckEntry(destDir, header).value)
  {
    SafeJoinIff(destDir, header.name);
    var target := SafeJoin(destDir, header.name);
    if target.Some? && header.kind.Symlink? {
      AcceptedIff(destDir, target.value, header.kind.linkname);
    }
  }
}
