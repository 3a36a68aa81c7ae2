/** Checking the keys of a configuration file against the settings there are
    (internal/config/diagnostics.go). */
module Schema {
  import opened Document
  import opened Strings

  // ----- the schema -----

  /** The dotted names of the settings and of the groups, "" for the document, and the
      keys directly under each group. */
  datatype DocumentSchema = DocumentSchema(leaves: set<string>, sections: set<string>,
                                           children: map<string, seq<string>>)

  function ChildrenOf(schema: DocumentSchema, parent: string): seq<string> {
    if parent in schema.children then schema.children[parent] else []
  }

  ghost predicate NoRepeats(keys: seq<string>) {
    forall i, k | 0 <= i < k < |keys| :: keys[i] != keys[k]
  }

  /** One of the first n keys of the path is key, under the group called parent. */
  ghost predicate Holds(path: Path, n: nat, parent: string, key: string) {
    exists d :: 0 <= d < n && d < |path| && Name(path[..d]) == parent && path[d] == key
  }

  /** A group the path goes through within its first n keys. */
  ghost predicate Enters(path: Path, n: nat, name: string) {
    exists d :: 0 < d <= n && d < |path| && Name(path[..d]) == name
  }

  /** The keys under a group are listed once each, in the order in which the settings
      bring them up. */
  ghost predicate IsSchemaOf(schema: DocumentSchema, paths: seq<Path>) {
    && (forall name :: name in schema.leaves <==> exists p :: p in paths && p != [] && Name(p) == name)
    && (forall name :: name in schema.sections <==> name == "" || exists p :: p in paths && Enters(p, |p|, name))
    && (forall parent, key :: key in ChildrenOf(schema, parent) <==> HeldBy(paths, parent, key))
    && (forall parent :: NoRepeats(ChildrenOf(schema, parent)))
    && (forall parent, j | 0 <= j <= |paths| :: HeldFirst(paths[..j], parent, ChildrenOf(schema, parent)))
  }

  ghost predicate HeldBy(paths: seq<Path>, parent: string, key: string) {
    exists p :: p in paths && Holds(p, |p|, parent, key)
  }

  /** The keys that some of these paths hold stand before the keys that none does. */
  ghost predicate HeldFirst(paths: seq<Path>, parent: string, keys: seq<string>) {
    forall i, k | 0 <= i < |keys| && 0 <= k < |keys| && HeldBy(paths, parent, keys[i]) &&
      !HeldBy(paths, parent, keys[k]) ::
      i < k
  }

  /** after is before with the first n keys of one more path. */
  ghost predicate Gains(before: DocumentSchema, after: DocumentSchema, path: Path, n: nat) {
    GainsNames(before, after, path, n) && GainsChildren(before, after, path, n)
  }

  ghost predicate GainsNames(before: DocumentSchema, after: DocumentSchema, path: Path, n: nat) {
    && after.leaves == before.leaves + (if 0 < n && n == |path| then {Name(path)} else {})
    && (forall name :: name in after.sections <==> name in before.sections || Enters(path, n, name))
  }

  ghost predicate GainsChildren(before: DocumentSchema, after: DocumentSchema, path: Path, n: nat) {
    && (forall parent, key :: key in ChildrenOf(after, parent) <==>
          key in ChildrenOf(before, parent) || Holds(path, n, parent, key))
    && (forall parent :: NoRepeats(ChildrenOf(after, parent)))
    && (forall parent :: ChildrenOf(before, parent) <= ChildrenOf(after, parent))
  }

  function WithChild(schema: DocumentSchema, parent: string, key: string): DocumentSchema {
    if key in ChildrenOf(schema, parent) then schema
    else schema.(children := schema.children[parent := ChildrenOf(schema, parent) + [key]])
  }

  function WithName(schema: DocumentSchema, name: string, isLeaf: bool): DocumentSchema {
    if isLeaf then schema.(leaves := schema.leaves + {name}) else schema.(sections := schema.sections + {name})
  }

  lemma GainsOne(before: DocumentSchema, so: DocumentSchema, path: Path, depth: nat)
    requires depth < |path| && Gains(before, so, path, depth)
    ensures Gains(before, WithChild(WithName(so, Name(path[..depth + 1]), depth == |path| - 1), Name(path[..depth]),
                                    path[depth]),
                  path, depth + 1)
  {
    GainsOneName(before, so, path, depth);
    GainsOneChild(before, WithName(so, Name(path[..depth + 1]), depth == |path| - 1), path, depth);
  }

  lemma GainsOneName(before: DocumentSchema, so: DocumentSchema, path: Path, depth: nat)
    requires depth < |path| && Gains(before, so, path, depth)
    ensures GainsNames(before, WithName(so, Name(path[..depth + 1]), depth == |path| - 1), path, depth + 1)
    ensures GainsChildren(before, WithName(so, Name(path[..depth + 1]), depth == |path| - 1), path, depth)
  {
    assert path[..|path|] == path;
    var named := WithName(so, Name(path[..depth + 1]), depth == |path| - 1);
    assert forall q :: ChildrenOf(named, q) == ChildrenOf(so, q);
    OneKeyFurther(path, depth);
  }

  lemma GainsOneChild(before: DocumentSchema, named: DocumentSchema, path: Path, depth: nat)
    requires depth < |path| && GainsNames(before, named, path, depth + 1) && GainsChildren(before, named, path, depth)
    ensures Gains(before, WithChild(named, Name(path[..depth]), path[depth]), path, depth + 1)
  {
    ChildAdded(named, Name(path[..depth]), path[depth]);
    OneKeyFurther(path, depth);
  }

  lemma OneKeyFurther(path: Path, depth: nat)
    requires depth < |path|
    ensures forall name :: Enters(path, depth + 1, name) <==>
              Enters(path, depth, name) || (depth + 1 < |path| && Name(path[..depth + 1]) == name)
    ensures forall parent, key :: Holds(path, depth + 1, parent, key) <==>
              Holds(path, depth, parent, key) || (Name(path[..depth]) == parent && path[depth] == key)
  {
    forall name
      ensures Enters(path, depth + 1, name) <==>
              Enters(path, depth, name) || (depth + 1 < |path| && Name(path[..depth + 1]) == name)
    {
    }
    forall parent, key
      ensures Holds(path, depth + 1, parent, key) <==>
              Holds(path, depth, parent, key) || (Name(path[..depth]) == parent && path[depth] == key)
    {
    }
  }

  lemma ChildAdded(schema: DocumentSchema, parent: string, key: string)
    requires forall q :: NoRepeats(ChildrenOf(schema, q))
    ensures var after := WithChild(schema, parent, key);
            && (forall q, k :: k in ChildrenOf(after, q) <==> k in ChildrenOf(schema, q) || (q == parent && k == key))
            && (forall q :: NoRepeats(ChildrenOf(after, q)))
            && (forall q :: ChildrenOf(schema, q) <= ChildrenOf(after, q))
  {
    var after := WithChild(schema, parent, key);
    forall q
      ensures ChildrenOf(after, q) ==
              if q == parent && key !in ChildrenOf(schema, q) then ChildrenOf(schema, q) + [key]
              else ChildrenOf(schema, q)
    {
    }
    forall q
      ensures NoRepeats(ChildrenOf(after, q))
    {
      assert NoRepeats(ChildrenOf(schema, q));
    }
  }

  /** computeSchema: every setting on its own path, every group on the way to one. */
  method ComputeSchema(paths: seq<Path>) returns (schema: DocumentSchema)
    ensures IsSchemaOf(schema, paths)
  {
    schema := DocumentSchema({}, {""}, map[]);
    for i := 0 to |paths|
      invariant IsSchemaOf(schema, paths[..i])
    {
      ghost var before := schema;
      schema := AddPath(schema, paths[i]);
      GainsPath(before, schema, paths[..i], paths[i]);
      assert paths[..i + 1] == paths[..i] + [paths[i]];
    }
    assert paths[..|paths|] == paths;
  }

  method AddPath(before: DocumentSchema, path: Path) returns (schema: DocumentSchema)
    requires forall parent :: NoRepeats(ChildrenOf(before, parent))
    ensures Gains(before, schema, path, |path|)
  {
    schema := before;
    for depth := 0 to |path|
      invariant Gains(before, schema, path, depth)
    {
      var parent := Name(path[..depth]);
      var key := path[depth];
      var name := Name(path[..depth + 1]);
      GainsOne(before, schema, path, depth);
      if depth == |path| - 1 {
        schema := schema.(leaves := schema.leaves + {name});
      } else {
        schema := schema.(sections := schema.sections + {name});
      }
      if key !in ChildrenOf(schema, parent) {
        schema := schema.(children := schema.children[parent := ChildrenOf(schema, parent) + [key]]);
      }
    }
  }

  lemma GainsPath(before: DocumentSchema, after: DocumentSchema, paths: seq<Path>, path: Path)
    requires IsSchemaOf(before, paths) && Gains(before, after, path, |path|)
    ensures IsSchemaOf(after, paths + [path])
  {
    var more := paths + [path];
    assert path in more && forall p | p in paths :: p in more;
    forall parent, key
      ensures HeldBy(more, parent, key) <==> HeldBy(paths, parent, key) || Holds(path, |path|, parent, key)
    {
    }
    forall parent, j | 0 <= j <= |more|
      ensures HeldFirst(more[..j], parent, ChildrenOf(after, parent))
    {
      if j <= |paths| {
        assert more[..j] == paths[..j];
        OrderKept(paths, j, parent, ChildrenOf(before, parent), ChildrenOf(after, parent));
      } else {
        assert more[..j] == more;
      }
    }
  }

  lemma OrderKept(paths: seq<Path>, j: nat, parent: string, before: seq<string>, after: seq<string>)
    requires j <= |paths| && HeldFirst(paths[..j], parent, before) && before <= after
    requires forall key | HeldBy(paths, parent, key) :: key in before
    requires NoRepeats(after)
    ensures HeldFirst(paths[..j], parent, after)
  {
    forall i | 0 <= i < |after| && HeldBy(paths[..j], parent, after[i])
      ensures i < |before|
    {
      var p :| p in paths[..j] && Holds(p, |p|, parent, after[i]);
      assert p in paths;
      assert HeldBy(paths, parent, after[i]);
      var k :| 0 <= k < |before| && before[k] == after[i];
    }
  }

  // ----- the check -----

  /** Keys that were settings once. */
  const RETIRED: set<string> := {"db.driver", "license.public_key"}

  /** The root's conventional homes for anchors. */
  predicate IsAnchorHolder(key: string) {
    HasPrefix(key, ".") || HasPrefix(key, "x-")
  }

  /** Keys that are no settings and are not meant to be. */
  predicate PassedOver(path: Path) {
    path != [] && (path[|path| - 1] == MERGE_KEY || (|path| == 1 && IsAnchorHolder(path[0])))
  }

  predicate Complains(schema: DocumentSchema, path: Path) {
    !PassedOver(path) && (Name(path) in RETIRED || (Name(path) !in schema.leaves && Name(path) !in schema.sections))
  }

  predicate Descends(schema: DocumentSchema, path: Path) {
    !PassedOver(path) && Name(path) !in RETIRED && Name(path) !in schema.leaves && Name(path) in schema.sections
  }

  function CheckEntry(entry: Entry, path: Path, schema: DocumentSchema): seq<Diagnostic>
    decreases entry, 0
  {
    var childPath := path + [entry.key];
    if Complains(schema, childPath) then [Diagnostic(Error, childPath, entry.line)]
    else if Descends(schema, childPath) && entry.value.Mapping? then Check(entry.value.entries, childPath, schema)
    else []
  }

  function Check(entries: seq<Entry>, path: Path, schema: DocumentSchema): seq<Diagnostic> {
    if entries == [] then [] else CheckEntry(entries[0], path, schema) + Check(entries[1..], path, schema)
  }

  /** The walk itself appends to one list. */
  method WalkDocument(entries: seq<Entry>, path: Path, schema: DocumentSchema, out: seq<Diagnostic>)
    returns (grown: seq<Diagnostic>)
    ensures grown == out + Check(entries, path, schema)
    decreases entries
  {
    grown := out;
    for i := 0 to |entries|
      invariant grown + Check(entries[i..], path, schema) == out + Check(entries, path, schema)
    {
      var key := entries[i].key;
      var childPath := path + [key];
      ghost var was := grown;
      assert entries[i..][1..] == entries[i + 1..];
      if key == MERGE_KEY {
      } else if |path| == 0 && IsAnchorHolder(key) {
      } else {
        var name := Name(childPath);
        if name in RETIRED {
          grown := grown + [Diagnostic(Error, childPath, entries[i].line)];
        } else if name in schema.leaves {
        } else if name in schema.sections {
          if entries[i].value.Mapping? {
            grown := WalkDocument(entries[i].value.entries, childPath, schema, grown);
          }
        } else {
          grown := grown + [Diagnostic(Error, childPath, entries[i].line)];
        }
      }
      assert grown == was + CheckEntry(entries[i], path, schema);
      assert was + (CheckEntry(entries[i], path, schema) + Check(entries[i + 1..], path, schema)) ==
             grown + Check(entries[i + 1..], path, schema);
    }
  }

  /** p, reached from path, is a key to complain about, and every key above it is a
      group to descend into: no setting, no retired key, nothing passed over. */
  ghost predicate Topmost(schema: DocumentSchema, path: Path, p: Path) {
    Complains(schema, path + p) && forall n | 0 < n < |p| :: Descends(schema, path + p[..n])
  }

  lemma TopmostBelow(schema: DocumentSchema, path: Path, p: Path)
    requires |p| > 1
    ensures Topmost(schema, path, p) <==> Descends(schema, path + [p[0]]) && Topmost(schema, path + [p[0]], p[1..])
  {
    var key, rest := p[0], p[1..];
    assert path + p == path + [key] + rest;
    assert p[..1] == [key];
    forall n | 0 < n < |rest|
      ensures path + p[..n + 1] == path + [key] + rest[..n]
    {
    }
    if Topmost(schema, path, p) {
      assert Descends(schema, path + p[..1]);
      forall n | 0 < n < |rest|
        ensures Descends(schema, path + [key] + rest[..n])
      {
        assert Descends(schema, path + p[..n + 1]);
      }
    }
    if Descends(schema, path + [key]) && Topmost(schema, path + [key], rest) {
      forall n | 0 < n < |p|
        ensures Descends(schema, path + p[..n])
      {
        if n > 1 {
          assert Descends(schema, path + [key] + rest[..n - 1]);
        }
      }
    }
  }

  lemma {:induction false} ComplaintsAreAboutKeys(entries: seq<Entry>, path: Path, schema: DocumentSchema)
    ensures AboutKeys(Check(entries, path, schema), path, KeySet(entries))
    decreases entries
  {
    if entries != [] {
      HeadComplaintsAreAboutItsKey(entries[0], path, schema);
      ComplaintsAreAboutKeys(entries[1..], path, schema);
      TailKeys(entries);
    }
  }

  lemma {:induction false} HeadComplaintsAreAboutItsKey(entry: Entry, path: Path, schema: DocumentSchema)
    ensures AboutKeys(CheckEntry(entry, path, schema), path, {entry.key})
    decreases entry, 0
  {
    if entry.value.Mapping? {
      var childPath := path + [entry.key];
      ComplaintsAreAboutKeys(entry.value.entries, childPath, schema);
      forall d | d in Check(entry.value.entries, childPath, schema)
        ensures d.path[..|path|] == path && d.path[|path|] == entry.key
      {
        assert d.path[..|path| + 1] == childPath;
        assert d.path[..|path|] == childPath[..|path|];
      }
    }
  }

  lemma {:induction false} HeadCheckedIff(entry: Entry, path: Path, schema: DocumentSchema, p: Path)
    requires p != []
    ensures Reports(CheckEntry(entry, path, schema), path + p) <==> HeadHas(entry, p) && Topmost(schema, path, p)
    decreases entry, 0
  {
    var childPath := path + [entry.key];
    var found := CheckEntry(entry, path, schema);
    HeadComplaintsAreAboutItsKey(entry, path, schema);
    if p[0] != entry.key {
      assert (path + p)[|path|] == p[0];
    } else if |p| == 1 {
      assert path + p == childPath;
      if entry.value.Mapping? {
        ComplaintsAreAboutKeys(entry.value.entries, childPath, schema);
      }
      if Complains(schema, childPath) {
        assert found[0].path == childPath;
      }
    } else {
      assert path + p == childPath + p[1..];
      TopmostBelow(schema, path, p);
      if entry.value.Mapping? {
        CheckedIff(entry.value.entries, childPath, schema, p[1..]);
      }
    }
  }

  /** What is reported is exactly the keys of the document that are retired, or that
      are neither setting nor group, with only groups above them. */
  lemma {:induction false} CheckedIff(entries: seq<Entry>, path: Path, schema: DocumentSchema, p: Path)
    requires p != []
    ensures Reports(Check(entries, path, schema), path + p) <==> HasPath(entries, p) && Topmost(schema, path, p)
    decreases entries
  {
    if entries != [] {
      PathInTail(entries, p);
      HeadCheckedIff(entries[0], path, schema, p);
      CheckedIff(entries[1..], path, schema, p);
      ReportsEither(CheckEntry(entries[0], path, schema), Check(entries[1..], path, schema), path + p);
    }
  }

  /** Every complaint is an error, and names the line of its key. */
  lemma {:induction false} ComplaintsAreErrors(entries: seq<Entry>, path: Path, schema: DocumentSchema)
    ensures forall d | d in Check(entries, path, schema) :: d.severity == Error
    ensures OnTheirLines(Check(entries, path, schema), path, entries)
    decreases entries
  {
    if entries != [] {
      HeadComplaintIsError(entries[0], path, schema);
      ComplaintsAreErrors(entries[1..], path, schema);
      LinesOfAll(CheckEntry(entries[0], path, schema), Check(entries[1..], path, schema), path, entries);
    }
  }

  lemma {:induction false} HeadComplaintIsError(entry: Entry, path: Path, schema: DocumentSchema)
    ensures forall d | d in CheckEntry(entry, path, schema) :: d.severity == Error
    ensures OnTheirLines(CheckEntry(entry, path, schema), path, [entry])
    decreases entry, 0
  {
    var childPath := path + [entry.key];
    if entry.key != MERGE_KEY {
      LineOfKey(path, entry, Error);
      if entry.value.Mapping? {
        ComplaintsAreErrors(entry.value.entries, childPath, schema);
        LinesBelow(Check(entry.value.entries, childPath, schema), path, entry);
      }
    }
  }

  lemma TopmostFromRoot(schema: DocumentSchema, p: Path)
    ensures Topmost(schema, [], p) <==> Complains(schema, p) && forall n | 0 < n < |p| :: Descends(schema, p[..n])
  {
    assert [] + p == p;
    forall n | 0 < n < |p|
      ensures [] + p[..n] == p[..n]
    {
    }
  }

  /** Nothing on the way to a written key is passed over but the anchor holder it may be in. */
  lemma PassedOverIff(doc: seq<Entry>, p: Path, n: nat)
    requires HasPath(doc, p) && 0 < n <= |p|
    ensures PassedOver(p[..n]) <==> n == 1 && (HasPrefix(p[0], ".") || HasPrefix(p[0], "x-"))
  {
    NoMergeKey(doc, p, n - 1);
    assert p[..n][0] == p[0] && p[..n][n - 1] == p[n - 1];
  }

  /** The name of a group, by the settings there are. */
  predicate NamesGroup(schema: DocumentSchema, p: Path) {
    Name(p) in schema.sections && Name(p) !in schema.leaves && Name(p) !in {"db.driver", "license.public_key"}
  }

  /** Spelled out for a whole document: reported is a key that is written outside merge keys
      and the root's anchor holders, has the name of a retired key or of neither setting nor
      group, and stands below groups alone. */
  lemma ReportedExactly(doc: seq<Entry>, schema: DocumentSchema, p: Path)
    requires p != []
    ensures Reports(Check(doc, [], schema), p) <==>
            && HasPath(doc, p) && !HasPrefix(p[0], "x-") && !HasPrefix(p[0], ".")
            && (Name(p) in {"db.driver", "license.public_key"} ||
                (Name(p) !in schema.leaves && Name(p) !in schema.sections))
            && forall n | 0 < n < |p| :: NamesGroup(schema, p[..n])
  {
    CheckedIff(doc, [], schema, p);
    assert [] + p == p;
    if HasPath(doc, p) {
      TopmostFromRoot(schema, p);
      PassedOverIff(doc, p, |p|);
      assert p[..|p|] == p;
      GroupsAbove(doc, schema, p);
    }
  }

  lemma GroupsAbove(doc: seq<Entry>, schema: DocumentSchema, p: Path)
    requires HasPath(doc, p)
    ensures (forall n | 0 < n < |p| :: Descends(schema, p[..n])) <==>
            (|p| > 1 ==> !HasPrefix(p[0], "x-") && !HasPrefix(p[0], ".")) &&
            forall n | 0 < n < |p| :: NamesGroup(schema, p[..n])
  {
    forall n | 0 < n < |p|
      ensures Descends(schema, p[..n]) <==>
              NamesGroup(schema, p[..n]) && (n == 1 ==> !HasPrefix(p[0], "x-") && !HasPrefix(p[0], "."))
    {
      PassedOverIff(doc, p, n);
    }
    if |p| > 1 && forall n | 0 < n < |p| :: Descends(schema, p[..n]) {
      assert Descends(schema, p[..1]);
    }
  }

  lemma {:induction false} CheckedOnce(entries: seq<Entry>, path: Path, schema: DocumentSchema)
    requires WellFormed(entries)
    ensures DistinctPaths(Check(entries, path, schema))
    decreases entries
  {
    if entries != [] {
      TailKeys(entries);
      if entries[0].value.Mapping? {
        CheckedOnce(entries[0].value.entries, path + [entries[0].key], schema);
      }
      HeadComplaintsAreAboutItsKey(entries[0], path, schema);
      CheckedOnce(entries[1..], path, schema);
      ComplaintsAreAboutKeys(entries[1..], path, schema);
      ApartFrom(CheckEntry(entries[0], path, schema), Check(entries[1..], path, schema), path,
                {entries[0].key}, KeySet(entries[1..]));
    }
  }

  // ----- the check against the settings -----

  ghost predicate UndottedPath(path: Path) {
    forall i | 0 <= i < |path| :: Lacks('.', path[i])
  }

  /** The keys a path's dotted name spells: the path itself, unless one of its keys
      contains a dot. */
  function Spelt(p: Path): Path {
    Split('.', Name(p))
  }

  lemma UndottedIsSpelt(p: Path)
    requires p != [] && UndottedPath(p)
    ensures Spelt(p) == p
  {
    SplitJoined('.', p);
  }

  /** What a dotted name decides, whatever keys it was joined from: it is a setting if
      the keys it spells are one, and a group if a setting lies beneath them. */
  lemma NamesDecide(schema: DocumentSchema, paths: seq<Path>, p: Path)
    requires IsSchemaOf(schema, paths) && forall q | q in paths :: UndottedPath(q)
    requires p != []
    ensures Name(p) in schema.leaves <==> Spelt(p) in paths
    ensures Name(p) in schema.sections <==> Name(p) == "" || exists q :: q in paths && Spelt(p) < q
  {
    JoinedSplit('.', Name(p));
    if Name(p) in schema.leaves {
      var q :| q in paths && q != [] && Name(q) == Name(p);
      UndottedIsSpelt(q);
    }
    if Name(p) in schema.sections && Name(p) != "" {
      var q :| q in paths && Enters(q, |q|, Name(p));
      var d :| 0 < d <= |q| && d < |q| && Name(q[..d]) == Name(p);
      UndottedIsSpelt(q[..d]);
    }
    if q :| q in paths && Spelt(p) < q {
      assert q[..|Spelt(p)|] == Spelt(p);
      assert Enters(q, |q|, Name(p));
    }
  }

  /** The dotted name is that of a setting or a group. */
  ghost predicate SpellsSetting(paths: seq<Path>, p: Path) {
    exists q :: q in paths && Spelt(p) <= q
  }

  /** A key above it has the dotted name of a setting, which takes it in. */
  ghost predicate UnderSetting(paths: seq<Path>, p: Path) {
    exists n :: 0 < n < |p| && Spelt(p[..n]) in paths
  }

  /** The key draws no complaint of its own: it is taken in by a setting above it, or it
      is not retired and its dotted name is known.  The empty root key has the dotted
      name of the document, which is a group. */
  ghost predicate Passes(paths: seq<Path>, p: Path) {
    UnderSetting(paths, p) || (Name(p) !in RETIRED && (p == [""] || SpellsSetting(paths, p)))
  }

  lemma KnownIff(schema: DocumentSchema, paths: seq<Path>, p: Path)
    requires IsSchemaOf(schema, paths) && forall q | q in paths :: UndottedPath(q)
    requires p != []
    ensures Name(p) in schema.leaves || Name(p) in schema.sections <==> p == [""] || SpellsSetting(paths, p)
  {
    NamesDecide(schema, paths, p);
    NameIsEmptyIff(p);
    if Name(p) in schema.leaves {
      assert Spelt(p) <= Spelt(p);
    }
    if q :| q in paths && Spelt(p) <= q {
      assert Spelt(p) == q || Spelt(p) < q;
    }
  }

  lemma NameIsEmptyIff(p: Path)
    requires p != []
    ensures Name(p) == "" <==> p == [""]
  {
    if |p| == 1 {
      assert p == [p[0]];
    }
  }

  lemma {:induction false} PrefixIsThere(entries: seq<Entry>, p: Path, n: nat)
    requires HasPath(entries, p) && 0 < n <= |p|
    ensures HasPath(entries, p[..n])
    decreases |p|
  {
    var i :| 0 <= i < |entries| && entries[i].key == p[0] && (|p| > 1 ==> HasPath(EntriesOf(entries[i].value), p[1..]));
    assert p[..n][0] == p[0];
    if n > 1 {
      PrefixIsThere(EntriesOf(entries[i].value), p[1..], n - 1);
      assert p[..n][1..] == p[1..][..n - 1];
    }
  }

  lemma {:induction false} NoMergeKey(entries: seq<Entry>, p: Path, i: nat)
    requires HasPath(entries, p) && i < |p|
    ensures p[i] != MERGE_KEY
    decreases |p|
  {
    if i > 0 {
      var e :| 0 <= e < |entries| && entries[e].key == p[0] &&
        (|p| > 1 ==> HasPath(EntriesOf(entries[e].value), p[1..]));
      NoMergeKey(EntriesOf(entries[e].value), p[1..], i - 1);
    }
  }

  /** A key that passes, and is neither under a setting nor one itself, is descended into. */
  lemma PassingGroup(schema: DocumentSchema, paths: seq<Path>, p: Path)
    requires IsSchemaOf(schema, paths) && forall q | q in paths :: UndottedPath(q)
    requires p != [] && !PassedOver(p)
    requires Passes(paths, p) && !UnderSetting(paths, p) && Spelt(p) !in paths
    ensures Descends(schema, p)
  {
    NamesDecide(schema, paths, p);
    KnownIff(schema, paths, p);
  }

  lemma {:induction false} AllPass(doc: seq<Entry>, schema: DocumentSchema, paths: seq<Path>, p: Path)
    requires IsSchemaOf(schema, paths) && forall q | q in paths :: UndottedPath(q)
    requires Check(doc, [], schema) == []
    requires HasPath(doc, p) && !IsAnchorHolder(p[0])
    ensures Passes(paths, p)
    decreases |p|
  {
    if !UnderSetting(paths, p) {
      forall n | 0 < n < |p|
        ensures Descends(schema, p[..n])
      {
        PrefixIsThere(doc, p, n);
        AllPass(doc, schema, paths, p[..n]);
        NoMergeKey(doc, p, n - 1);
        GroupAbove(schema, paths, p, n);
      }
      NoMergeKey(doc, p, |p| - 1);
      UnreportedPasses(doc, schema, paths, p);
    }
  }

  lemma UnreportedPasses(doc: seq<Entry>, schema: DocumentSchema, paths: seq<Path>, p: Path)
    requires IsSchemaOf(schema, paths) && forall q | q in paths :: UndottedPath(q)
    requires Check(doc, [], schema) == [] && HasPath(doc, p) && !PassedOver(p)
    requires forall n | 0 < n < |p| :: Descends(schema, p[..n])
    ensures Passes(paths, p)
  {
    CheckedIff(doc, [], schema, p);
    KnownIff(schema, paths, p);
    assert [] + p == p;
    forall n | 0 < n < |p|
      ensures Descends(schema, [] + p[..n])
    {
      assert [] + p[..n] == p[..n];
    }
  }

  lemma GroupAbove(schema: DocumentSchema, paths: seq<Path>, p: Path, n: nat)
    requires IsSchemaOf(schema, paths) && forall q | q in paths :: UndottedPath(q)
    requires 0 < n < |p| && p[n - 1] != MERGE_KEY && !IsAnchorHolder(p[0])
    requires !UnderSetting(paths, p) && Passes(paths, p[..n])
    ensures Descends(schema, p[..n])
  {
    StillNotUnder(paths, p, n);
    PassingGroup(schema, paths, p[..n]);
  }

  lemma StillNotUnder(paths: seq<Path>, p: Path, n: nat)
    requires !UnderSetting(paths, p) && 0 < n < |p|
    ensures !UnderSetting(paths, p[..n]) && Spelt(p[..n]) !in paths
  {
    forall m | 0 < m < n
      ensures p[..n][..m] == p[..m]
    {
    }
  }

  /** A reported key does not pass. */
  lemma ReportedDoesNotPass(schema: DocumentSchema, paths: seq<Path>, p: Path)
    requires IsSchemaOf(schema, paths) && forall q | q in paths :: UndottedPath(q)
    requires p != [] && Topmost(schema, [], p)
    ensures !Passes(paths, p) && !IsAnchorHolder(p[0])
  {
    assert [] + p == p;
    KnownIff(schema, paths, p);
    forall n | 0 < n < |p|
      ensures Spelt(p[..n]) !in paths
    {
      assert Descends(schema, [] + p[..n]);
      assert [] + p[..n] == p[..n];
      NamesDecide(schema, paths, p[..n]);
    }
    if |p| > 1 {
      assert Descends(schema, [] + p[..1]);
      assert [] + p[..1] == p[..1];
    }
  }

  /** Which documents are accepted: those in which every key outside the anchor holders
      passes. */
  lemma AcceptedIff(doc: seq<Entry>, schema: DocumentSchema, paths: seq<Path>)
    requires IsSchemaOf(schema, paths) && forall q | q in paths :: UndottedPath(q)
    ensures Check(doc, [], schema) == [] <==> forall p | HasPath(doc, p) && !IsAnchorHolder(p[0]) :: Passes(paths, p)
  {
    var found := Check(doc, [], schema);
    if found == [] {
      forall p | HasPath(doc, p) && !IsAnchorHolder(p[0])
        ensures Passes(paths, p)
      {
        AllPass(doc, schema, paths, p);
      }
    } else {
      var p := found[0].path;
      ComplaintsAreAboutKeys(doc, [], schema);
      assert found[0] in found && [] + p == p;
      CheckedIff(doc, [], schema, p);
      ReportedDoesNotPass(schema, paths, p);
    }
  }

  // ----- what the check lets through -----

  /** The key is a setting, leads to one, or is beneath one: the merge can find it. */
  ghost predicate LeadsToSetting(paths: seq<Path>, p: Path) {
    exists q :: q in paths && q != [] && (p <= q || q <= p)
  }

  /** Without dots, passing is what it should be. */
  lemma UndottedPassesIff(paths: seq<Path>, p: Path)
    requires UndottedPath(p) && p != [] && p != [""] && Name(p) !in RETIRED
    ensures Passes(paths, p) <==> LeadsToSetting(paths, p)
  {
    UndottedIsSpelt(p);
    forall n | 0 < n < |p|
      ensures Spelt(p[..n]) == p[..n]
    {
      UndottedIsSpelt(p[..n]);
    }
    if q :| q in paths && q != [] && q <= p {
      assert q == p[..|q|];
    }
  }

  /** So a document of such keys is accepted exactly if each of them leads to a setting. */
  lemma UndottedAcceptedIff(doc: seq<Entry>, schema: DocumentSchema, paths: seq<Path>)
    requires IsSchemaOf(schema, paths) && forall q | q in paths :: UndottedPath(q)
    requires forall p | HasPath(doc, p) && !IsAnchorHolder(p[0]) ::
               UndottedPath(p) && p != [""] && Name(p) !in RETIRED
    ensures Check(doc, [], schema) == [] <==>
            forall p | HasPath(doc, p) && !IsAnchorHolder(p[0]) :: LeadsToSetting(paths, p)
  {
    AcceptedIff(doc, schema, paths);
    forall p | HasPath(doc, p) && !IsAnchorHolder(p[0])
      ensures Passes(paths, p) <==> LeadsToSetting(paths, p)
    {
      UndottedPassesIff(paths, p);
    }
  }

  /** Every key above it is a group of settings, by its path and not only by its name. */
  ghost predicate InsideGroups(paths: seq<Path>, p: Path) {
    forall n | 0 < n < |p| :: p[..n] !in paths && exists q :: q in paths && p[..n] < q
  }

  /** The check says nothing about the key, and yet nothing will read it. */
  ghost predicate SilentlyIgnored(schema: DocumentSchema, paths: seq<Path>, p: Path) {
    !Complains(schema, p) && !LeadsToSetting(paths, p)
  }

  /** Exactly when the check fails of its purpose, for a key inside groups that is not
      retired or passed over: when it is the empty root key, or when it contains a dot and
      the name spells a setting or a group. */
  lemma SilentlyIgnoredIff(schema: DocumentSchema, paths: seq<Path>, p: Path)
    requires IsSchemaOf(schema, paths) && forall q | q in paths :: UndottedPath(q)
    requires p != [] && InsideGroups(paths, p) && !PassedOver(p) && Name(p) !in RETIRED
    ensures SilentlyIgnored(schema, paths, p) <==>
            if Lacks('.', p[|p| - 1]) then p == [""] && !LeadsToSetting(paths, p) else SpellsSetting(paths, p)
  {
    var n := |p| - 1;
    KnownIff(schema, paths, p);
    GroupsAreUndotted(paths, p);
    if Lacks('.', p[n]) {
      UndottedIsSpelt(p);
      if q :| q in paths && p <= q {
        assert q != [];
      }
    } else {
      DottedLeadsNowhere(paths, p);
    }
  }

  lemma GroupsAreUndotted(paths: seq<Path>, p: Path)
    requires (forall q | q in paths :: UndottedPath(q)) && p != [] && InsideGroups(paths, p)
    ensures UndottedPath(p[..|p| - 1])
  {
    if |p| > 1 {
      var q :| q in paths && p[..|p| - 1] < q;
      forall i | 0 <= i < |p| - 1
        ensures Lacks('.', p[i])
      {
        assert q[i] == p[..|p| - 1][i];
      }
    }
  }

  lemma PrefixesAreUndotted(paths: seq<Path>, p: Path)
    requires forall q | q in paths :: UndottedPath(q)
    ensures (exists q :: q in paths && p <= q) ==> UndottedPath(p)
  {
    if q :| q in paths && p <= q {
      assert forall i | 0 <= i < |p| :: p[i] == q[i];
    }
  }

  lemma DottedLeadsNowhere(paths: seq<Path>, p: Path)
    requires (forall q | q in paths :: UndottedPath(q)) && p != [] && InsideGroups(paths, p)
    requires !Lacks('.', p[|p| - 1])
    ensures !LeadsToSetting(paths, p)
  {
    PrefixesAreUndotted(paths, p);
    forall q | q <= p && q != p && q != []
      ensures q !in paths
    {
      assert q == p[..|q|];
    }
  }

  /** A setting spelt with a dot in one root key is accepted, and is not the setting. */
  lemma DottedKeyIsIgnored(schema: DocumentSchema)
    requires IsSchemaOf(schema, [["registry", "dir"]])
    ensures Check([Entry("registry.dir", 1, Scalar("plugins"))], [], schema) == []
    ensures !LeadsToSetting([["registry", "dir"]], ["registry.dir"])
  {
    NameOfExample();
    assert ["registry", "dir"] in [["registry", "dir"]];
    LeafDrawsNoComplaint(schema, "registry.dir");
  }

  lemma NameOfExample()
    ensures Name(["registry", "dir"]) == "registry.dir"
  {
    JoinedConcat('.', ["registry"], ["dir"]);
    assert ["registry"] + ["dir"] == ["registry", "dir"];
  }

  lemma LeafDrawsNoComplaint(schema: DocumentSchema, key: string)
    requires key in schema.leaves && key !in RETIRED
    ensures Check([Entry(key, 1, Scalar("plugins"))], [], schema) == []
  {
    var doc := [Entry(key, 1, Scalar("plugins"))];
    assert [] + [key] == [key] && Name([key]) == key;
    assert CheckEntry(doc[0], [], schema) == [];
    assert doc[1..] == [];
  }

  /** An empty key at the root has the name of the document itself, and so passes for a group. */
  lemma EmptyKeyIsAGroup(schema: DocumentSchema, paths: seq<Path>)
    requires IsSchemaOf(schema, paths) && "" !in schema.leaves
    ensures Check([Entry("", 1, Scalar("on"))], [], schema) == []
  {
    var doc := [Entry("", 1, Scalar("on"))];
    assert [] + [""] == [""] && Name([""]) == "";
    assert CheckEntry(doc[0], [], schema) == [];
    assert doc[1..] == [];
  }
}
