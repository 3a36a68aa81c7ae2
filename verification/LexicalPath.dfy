/** Slash-separated paths as the path/filepath package treats them on Unix: Clean,
    Join, Dir and IsAbs, as far as archive unpacking needs them. */
module LexicalPath {
  import opened Strings

  predicate IsAbs(path: string) {
    |path| > 0 && path[0] == '/'
  }

  /** One element of a path under construction: empty elements and "." vanish, ".."
      removes the last name, vanishes at the root and stays in a relative path that
      has no name left. */
  function Resolve(rooted: bool, names: seq<string>, part: string): seq<string> {
    if part == "" || part == "." then names
    else if part == ".." then
      if names != [] && names[|names| - 1] != ".." then names[..|names| - 1]
      else if rooted then names
      else names + [".."]
    else names + [part]
  }

  function ResolveAll(rooted: bool, names: seq<string>, parts: seq<string>): seq<string>
    decreases |parts|
  {
    if parts == [] then names else ResolveAll(rooted, Resolve(rooted, names, parts[0]), parts[1..])
  }

  /** The elements of the cleaned path. */
  function Elements(path: string): seq<string> {
    ResolveAll(IsAbs(path), [], Split('/', path))
  }

  function Render(rooted: bool, names: seq<string>): string {
    if rooted then "/" + Joined('/', names)
    else if names == [] then "." else Joined('/', names)
  }

  function Clean(path: string): string {
    Render(IsAbs(path), Elements(path))
  }

  /** Join of two elements; an empty first one is left out. */
  function Join(dir: string, name: string): string {
    if dir == "" then (if name == "" then "" else Clean(name)) else Clean(if name == "" then dir else dir + "/" + name)
  }

  lemma JoinSkipsEmpty(path: string)
    requires path != ""
    ensures Join("", "") == "" && Join("", path) == Clean(path) && Join(path, "") == Clean(path)
  {
  }

  // ----- names and cleaned lists of names -----

  predicate Name(part: string) {
    Lacks('/', part) && part != "" && part != "."
  }

  /** What Clean leaves: names, with ".." only at the front and not below a root. */
  predicate Cleaned(rooted: bool, names: seq<string>) {
    && (forall i | 0 <= i < |names| :: Name(names[i]))
    && (forall i | 0 <= i < |names| && names[i] == ".." :: !rooted && forall k | 0 <= k < i :: names[k] == "..")
  }

  lemma {:induction false} ResolveKeepsCleaned(rooted: bool, names: seq<string>, parts: seq<string>)
    requires Cleaned(rooted, names) && forall i | 0 <= i < |parts| :: Lacks('/', parts[i])
    ensures Cleaned(rooted, ResolveAll(rooted, names, parts))
    decreases |parts|
  {
    if parts != [] {
      var next := Resolve(rooted, names, parts[0]);
      ResolveKeepsCleanedOnce(rooted, names, parts[0]);
      ResolveKeepsCleaned(rooted, next, parts[1..]);
    }
  }

  lemma ResolveKeepsCleanedOnce(rooted: bool, names: seq<string>, part: string)
    requires Cleaned(rooted, names) && Lacks('/', part)
    ensures Cleaned(rooted, Resolve(rooted, names, part))
  {
    if part == ".." && names != [] && names[|names| - 1] == ".." {
      assert forall k | 0 <= k < |names| :: names[k] == "..";
    }
  }

  lemma {:induction false} ResolveConcat(rooted: bool, names: seq<string>, p: seq<string>, q: seq<string>)
    ensures ResolveAll(rooted, names, p + q) == ResolveAll(rooted, ResolveAll(rooted, names, p), q)
    decreases |p|
  {
    if p == [] {
      assert [] + q == q;
    } else {
      assert (p + q)[1..] == p[1..] + q;
      ResolveConcat(rooted, Resolve(rooted, names, p[0]), p[1..], q);
    }
  }

  /** Resolving names that hold no ".." appends them. */
  lemma {:induction false} ResolveNames(rooted: bool, names: seq<string>, parts: seq<string>)
    requires forall i | 0 <= i < |parts| :: Name(parts[i]) && parts[i] != ".."
    ensures ResolveAll(rooted, names, parts) == names + parts
    decreases |parts|
  {
    if parts != [] {
      ResolveNames(rooted, names + [parts[0]], parts[1..]);
      assert names + [parts[0]] + parts[1..] == names + parts;
    }
  }

  lemma {:induction false} ResolveCleaned(rooted: bool, names: seq<string>, i: nat)
    requires Cleaned(rooted, names) && i <= |names|
    ensures ResolveAll(rooted, [], names[..i]) == names[..i]
  {
    if i > 0 {
      ResolveCleaned(rooted, names, i - 1);
      assert names[..i] == names[..i - 1] + [names[i - 1]];
      ResolveConcat(rooted, [], names[..i - 1], [names[i - 1]]);
    }
  }

  lemma ElementsAreCleaned(path: string)
    ensures Cleaned(IsAbs(path), Elements(path))
  {
    SplitParts('/', path);
    ResolveKeepsCleaned(IsAbs(path), [], Split('/', path));
  }

  lemma {:induction false} JoinedStarts(names: seq<string>)
    requires names != [] && forall i | 0 <= i < |names| :: Name(names[i])
    ensures |names[0]| > 0 && |Joined('/', names)| > 0 && Joined('/', names)[0] == names[0][0] &&
            Joined('/', names)[0] != '/'
  {
    assert names[0][0] in names[0];
  }

  lemma {:induction false} JoinedElements(rooted: bool, names: seq<string>)
    requires Cleaned(rooted, names) && names != []
    ensures Split('/', Joined('/', names)) == names && ResolveAll(rooted, [], names) == names
  {
    SplitJoined('/', names);
    ResolveCleaned(rooted, names, |names|);
    assert names[..|names|] == names;
  }

  lemma {:induction false} RootedElements(names: seq<string>)
    requires Cleaned(true, names)
    ensures IsAbs("/" + Joined('/', names)) && Elements("/" + Joined('/', names)) == names
  {
    SplitStep('/', '/', Joined('/', names));
    assert ['/'] + Joined('/', names) == "/" + Joined('/', names);
    var parts := Split('/', Joined('/', names));
    assert ([""] + parts)[1..] == parts;
    if names == [] {
      SplitWhole('/', "");
      assert ResolveAll(true, [], [""]) == [];
    } else {
      JoinedElements(true, names);
    }
  }

  /** Reading a rendered path back gives the same root flag and elements. */
  lemma {:induction false} RenderedElements(rooted: bool, names: seq<string>)
    requires Cleaned(rooted, names)
    ensures IsAbs(Render(rooted, names)) == rooted && Elements(Render(rooted, names)) == names
  {
    if rooted {
      RootedElements(names);
    } else if names == [] {
      SplitWhole('/', ".");
    } else {
      JoinedStarts(names);
      JoinedElements(false, names);
    }
  }

  lemma CleanedElements(path: string)
    ensures IsAbs(Clean(path)) == IsAbs(path) && Elements(Clean(path)) == Elements(path)
  {
    ElementsAreCleaned(path);
    RenderedElements(IsAbs(path), Elements(path));
  }
}
