/** Keys that YAML's merge key brings into a mapping.  The check and the renaming pass merge
    keys by (internal/config/diagnostics.go, internal/config/yamlalias.go); the decoder
    resolves them.  Anchors are taken as replaced by what they stand for, so a merged
    block is there to be read, and neither of the two reads it. */
module MergeKeys {
  import opened AliasTables
  import opened Document
  import opened Schema
  import opened Strings
  import opened YamlAlias

  // ----- the keys that take effect -----

  /** The key takes effect once merge keys are resolved: it is written in its mapping, or
      the mapping does not write it and a merge key brings it in. */
  ghost predicate Effective(entries: seq<Entry>, p: Path)
    decreases entries, 1
  {
    p != [] && p[0] != MERGE_KEY && exists i | 0 <= i < |entries| :: EffectiveAt(entries, i, p)
  }

  /** The entry is what makes it take effect. */
  ghost predicate EffectiveAt(entries: seq<Entry>, i: nat, p: Path)
    requires i < |entries| && p != []
    decreases entries, 0
  {
    var Entry(key, _, value) := entries[i];
    if key == MERGE_KEY
    then p[0] !in KeySet(entries) && value.Mapping? && Effective(value.entries, p)
    else key == p[0] && (|p| > 1 ==> value.Mapping? && Effective(value.entries, p[1..]))
  }

  /** What is written takes effect. */
  lemma {:induction false} WrittenIsEffective(entries: seq<Entry>, p: Path)
    requires HasPath(entries, p)
    ensures Effective(entries, p)
    decreases |p|
  {
    var i :| 0 <= i < |entries| && entries[i].key == p[0] && (|p| > 1 ==> HasPath(EntriesOf(entries[i].value), p[1..]));
    if |p| > 1 {
      assert entries[i].value.Mapping?;
      WrittenIsEffective(entries[i].value.entries, p[1..]);
    }
    assert EffectiveAt(entries, i, p);
  }

  // ----- what the check makes of them -----

  /** No key on the way is passed over, and none above it is retired. */
  ghost predicate Checkable(p: Path) {
    p != [] && forall n | 0 < n <= |p| :: !PassedOver(p[..n]) && (n < |p| ==> Name(p[..n]) !in RETIRED)
  }

  lemma GroupIsEntered(schema: DocumentSchema, paths: seq<Path>, p: Path, n: nat)
    requires IsSchemaOf(schema, paths) && forall q | q in paths :: UndottedPath(q)
    requires InsideGroups(paths, p) && Checkable(p) && 0 < n < |p|
    ensures Descends(schema, p[..n])
  {
    var q :| q in paths && p[..n] < q;
    forall i | 0 <= i < n
      ensures Lacks('.', p[..n][i])
    {
      assert q[i] == p[..n][i];
    }
    UndottedIsSpelt(p[..n]);
    NamesDecide(schema, paths, p[..n]);
  }

  /** A key inside groups is reported exactly if it is written there and its name is unknown. */
  lemma ReportedIff(doc: seq<Entry>, schema: DocumentSchema, paths: seq<Path>, p: Path)
    requires IsSchemaOf(schema, paths) && forall q | q in paths :: UndottedPath(q)
    requires InsideGroups(paths, p) && Checkable(p)
    ensures Reports(Check(doc, [], schema), p) <==> HasPath(doc, p) && Complains(schema, p)
  {
    assert [] + p == p;
    CheckedIff(doc, [], schema, p);
    forall n | 0 < n < |p|
      ensures Descends(schema, [] + p[..n])
    {
      assert [] + p[..n] == p[..n];
      GroupIsEntered(schema, paths, p, n);
    }
  }

  /** Exactly when a key that takes effect, and that nothing will read, goes unreported: when
      a merge key brings it in, or when its dotted name misleads the check. */
  lemma UnreportedIff(doc: seq<Entry>, schema: DocumentSchema, paths: seq<Path>, p: Path)
    requires IsSchemaOf(schema, paths) && forall q | q in paths :: UndottedPath(q)
    requires InsideGroups(paths, p) && Checkable(p) && Effective(doc, p) && !LeadsToSetting(paths, p)
    ensures !Reports(Check(doc, [], schema), p) <==> !HasPath(doc, p) || SilentlyIgnored(schema, paths, p)
  {
    ReportedIff(doc, schema, paths, p);
  }

  /** And so, for a key without dots, exactly when it is not written in its place. */
  lemma UndottedUnreportedIff(doc: seq<Entry>, schema: DocumentSchema, paths: seq<Path>, p: Path)
    requires IsSchemaOf(schema, paths) && forall q | q in paths :: UndottedPath(q)
    requires InsideGroups(paths, p) && Checkable(p) && Effective(doc, p) && !LeadsToSetting(paths, p)
    requires UndottedPath(p) && p != [""]
    ensures !Reports(Check(doc, [], schema), p) <==> !HasPath(doc, p)
  {
    UnreportedIff(doc, schema, paths, p);
    assert p[..|p|] == p;
    if Name(p) !in RETIRED {
      SilentlyIgnoredIff(schema, paths, p);
    }
  }

  /** A misspelt key in a block that an anchor holder keeps and a section merges in. */
  const MERGED: seq<Entry> := [Entry("porrt", 2, Scalar("1"))]
  const HOLDER: Entry := Entry("x-ports", 1, Mapping(MERGED))
  const MERGING: seq<Entry> := [Entry("<<", 4, Mapping(MERGED))]
  const SECTION: Entry := Entry("ports", 3, Mapping(MERGING))

  /** It takes effect, no setting is there to take it, and neither where it is kept nor where
      it is merged in does it draw a complaint. */
  lemma MergedKeyIsIgnored(schema: DocumentSchema)
    requires IsSchemaOf(schema, [["ports", "grpc"]])
    ensures Effective([HOLDER, SECTION], ["ports", "porrt"]) && Check([HOLDER, SECTION], [], schema) == []
    ensures !LeadsToSetting([["ports", "grpc"]], ["ports", "porrt"])
  {
    MergedTakesEffect();
    assert [] + ["x-ports"] == ["x-ports"] && HasPrefix("x-ports", "x-");
    assert CheckEntry(HOLDER, [], schema) == [];
    NothingMerging(schema);
    assert [HOLDER, SECTION][1..] == [SECTION] && [SECTION][1..] == [];
    assert Check([SECTION], [], schema) == [];
    assert !(["ports", "grpc"] <= ["ports", "porrt"]) && !(["ports", "porrt"] <= ["ports", "grpc"]) by {
      assert ["ports", "grpc"][1] != ["ports", "porrt"][1];
    }
  }

  lemma MergedTakesEffect()
    ensures Effective([HOLDER, SECTION], ["ports", "porrt"])
  {
    assert EffectiveAt(MERGED, 0, ["porrt"]);
    OneKey(MERGING[0]);
    assert EffectiveAt(MERGING, 0, ["porrt"]);
    assert ["ports", "porrt"][1..] == ["porrt"];
    assert EffectiveAt([HOLDER, SECTION], 1, ["ports", "porrt"]);
  }

  lemma NothingMerging(schema: DocumentSchema)
    requires IsSchemaOf(schema, [["ports", "grpc"]])
    ensures CheckEntry(SECTION, [], schema) == []
  {
    assert [] + ["ports"] == ["ports"] && Name(["ports"]) == "ports";
    MergingIsPassedOver(schema);
    SectionIsAGroup(schema);
  }

  lemma MergingIsPassedOver(schema: DocumentSchema)
    ensures Check(MERGING, ["ports"], schema) == []
  {
    assert PassedOver(["ports"] + [MERGE_KEY]);
    assert CheckEntry(MERGING[0], ["ports"], schema) == [] && MERGING[1..] == [];
  }

  lemma SectionIsAGroup(schema: DocumentSchema)
    requires IsSchemaOf(schema, [["ports", "grpc"]])
    ensures "ports" in schema.sections
  {
    var path := ["ports", "grpc"];
    assert path in [["ports", "grpc"]] && path[..1] == ["ports"] && Name(path[..1]) == "ports";
    assert Enters(path, |path|, "ports");
  }

  // ----- what the renaming makes of them -----

  /** A former key that would take effect after the renaming: down keys that are not former,
      a merge key brings it in, and its mapping does not write it, or writes it as a former
      key that is renamed away. */
  ghost predicate BroughtIn(entries: seq<Entry>, path: Path, aliases: Aliases, p: Path)
    decreases entries, 1
  {
    p != [] && p[0] != MERGE_KEY && exists i | 0 <= i < |entries| :: BroughtInAt(entries, i, path, aliases, p)
  }

  /** The entry is, or holds, the merge key that brings it in. */
  ghost predicate BroughtInAt(entries: seq<Entry>, i: nat, path: Path, aliases: Aliases, p: Path)
    requires i < |entries| && p != []
    decreases entries, 0
  {
    var Entry(key, _, value) := entries[i];
    value.Mapping? &&
    if key == MERGE_KEY
    then Effective(value.entries, p) && (p[0] !in KeySet(entries) || IsOld(aliases, path + [p[0]]))
    else |p| > 1 && key == p[0] && !IsOld(aliases, path + [p[0]])
         && BroughtIn(value.entries, path + [p[0]], aliases, p[1..])
  }

  /** No current name is a merge key. */
  ghost predicate NoMergeTargets(aliases: Aliases) {
    forall s | s in aliases :: NewLeaf(aliases[s]) != MERGE_KEY
  }

  lemma UnderLanding(aliases: Aliases, path: Path, key: string, dotted: bool, p: Path)
    requires SafeFor(aliases, dotted) && (dotted || Lacks('.', key)) && key != MERGE_KEY && IsOld(aliases, path + [key])
    requires p != [] && p[0] == NewLeaf(aliases[Name(path + [key])])
    ensures !IsOld(aliases, path + p)
  {
    var landing := Landing(aliases, path, key);
    assert path + p == landing + p[1..];
    NameIsUnder(landing, p[1..]);
  }

  /** The renamed mapping writes a key that is still a former one under no name of its own. */
  lemma NotWrittenAfter(entries: seq<Entry>, path: Path, aliases: Aliases, dotted: bool, p: Path)
    requires SafeFor(aliases, dotted) && (dotted || Undotted(entries)) && p != [] && p[0] != MERGE_KEY
    requires IsOld(aliases, path + p)
    ensures p[0] !in KeySet(Plain(entries, path, aliases)) <==>
            p[0] !in KeySet(entries) || IsOld(aliases, path + [p[0]])
  {
    var plain := Plain(entries, path, aliases);
    forall k | 0 <= k < |entries|
      ensures |plain| == |entries| && plain[k] == PlainEntry(entries[k], path, aliases)
    {
      PlainAt(entries, path, aliases, k);
    }
    PlainIsAsLong(entries, path, aliases);
    forall k | 0 <= k < |entries| && plain[k].key == p[0]
      ensures entries[k].key == p[0] && !IsOld(aliases, path + [p[0]])
    {
      WrittenAfterIsUnchanged(entries[k], path, aliases, dotted, p);
    }
    if p[0] in KeySet(entries) && !IsOld(aliases, path + [p[0]]) {
      var k :| 0 <= k < |entries| && entries[k].key == p[0];
      assert plain[k].key == p[0];
    }
  }

  lemma {:induction false} PlainIsAsLong(entries: seq<Entry>, path: Path, aliases: Aliases)
    ensures |Plain(entries, path, aliases)| == |entries|
  {
    if entries != [] {
      PlainIsAsLong(entries[1..], path, aliases);
    }
  }

  lemma WrittenAfterIsUnchanged(entry: Entry, path: Path, aliases: Aliases, dotted: bool, p: Path)
    requires SafeFor(aliases, dotted) && (dotted || Lacks('.', entry.key)) && p != [] && p[0] != MERGE_KEY
    requires IsOld(aliases, path + p) && PlainEntry(entry, path, aliases).key == p[0]
    ensures entry.key == p[0] && !IsOld(aliases, path + [p[0]])
  {
    if entry.key != MERGE_KEY && IsOld(aliases, path + [entry.key]) {
      UnderLanding(aliases, path, entry.key, dotted, p);
    }
  }

  /** Which former keys take effect once every written one has been renamed. */
  lemma {:induction false} StillOldIff(entries: seq<Entry>, path: Path, aliases: Aliases, dotted: bool, p: Path)
    requires SafeFor(aliases, dotted) && (dotted || Undotted(entries)) && NoMergeTargets(aliases)
    requires IsOld(aliases, path + p)
    ensures Effective(Plain(entries, path, aliases), p) <==> BroughtIn(entries, path, aliases, p)
    decreases entries, 1
  {
    if p != [] && p[0] != MERGE_KEY {
      var plain := Plain(entries, path, aliases);
      NotWrittenAfter(entries, path, aliases, dotted, p);
      PlainIsAsLong(entries, path, aliases);
      forall i | 0 <= i < |entries|
        ensures EffectiveAt(plain, i, p) <==> BroughtInAt(entries, i, path, aliases, p)
      {
        PlainAt(entries, path, aliases, i);
        StillOldAt(entries, i, path, aliases, dotted, p);
      }
    }
  }

  lemma FirstKeyApart(path: Path, p: Path)
    requires p != []
    ensures path + p == path + [p[0]] + p[1..] && (|p| == 1 ==> path + p == path + [p[0]])
  {
  }

  lemma {:induction false} StillOldAt(entries: seq<Entry>, i: nat, path: Path, aliases: Aliases, dotted: bool, p: Path)
    requires SafeFor(aliases, dotted) && (dotted || Undotted(entries)) && NoMergeTargets(aliases)
    requires IsOld(aliases, path + p) && p != [] && p[0] != MERGE_KEY && i < |entries|
    requires i < |Plain(entries, path, aliases)|
    requires p[0] !in KeySet(Plain(entries, path, aliases)) <==>
             p[0] !in KeySet(entries) || IsOld(aliases, path + [p[0]])
    ensures EffectiveAt(Plain(entries, path, aliases), i, p) <==> BroughtInAt(entries, i, path, aliases, p)
    decreases entries, 0
  {
    var entry, childPath := entries[i], path + [entries[i].key];
    PlainAt(entries, path, aliases, i);
    var plain := PlainEntry(entry, path, aliases);
    if entry.key != MERGE_KEY {
      if IsOld(aliases, childPath) {
        if plain.key == p[0] {
          UnderLanding(aliases, path, entry.key, dotted, p);
        }
      } else if entry.key == p[0] {
        FirstKeyApart(path, p);
        if |p| > 1 && entry.value.Mapping? {
          StillOldIff(entry.value.entries, childPath, aliases, dotted, p[1..]);
        }
      }
    }
  }

  /** After a rewriting without error, no former key takes effect exactly if no merge key
      brings one in. */
  lemma FormerKeysLeftIff(doc: seq<Entry>, aliases: Aliases, dotted: bool)
    requires SafeFor(aliases, dotted) && (dotted || Undotted(doc)) && NoMergeTargets(aliases) && WellFormed(doc)
    requires !HasErrors(Rewritten(doc, [], aliases).found)
    ensures (forall p | Effective(Rewritten(doc, [], aliases).entries, p) :: !IsOld(aliases, p)) <==>
            (forall p | BroughtIn(doc, [], aliases, p) :: !IsOld(aliases, p))
  {
    RewritingSucceedsIff(doc, aliases, dotted);
    forall p | IsOld(aliases, p)
      ensures Effective(Rewritten(doc, [], aliases).entries, p) <==> BroughtIn(doc, [], aliases, p)
    {
      assert [] + p == p;
      StillOldIff(doc, [], aliases, dotted, p);
    }
  }

  /** So no table that renames anything is safe against merge keys: a former key brought in
      at the root takes effect and is neither renamed nor reported. */
  lemma MergedFormerKeyIsLeft(aliases: Aliases, s: string, value: Node)
    requires s in aliases && s != MERGE_KEY
    ensures var doc := [Entry(MERGE_KEY, 1, Mapping([Entry(s, 2, value)]))];
            Rewritten(doc, [], aliases) == Rewrite(doc, []) && Effective(doc, [s]) && IsOld(aliases, [s])
  {
    var inner := [Entry(s, 2, value)];
    var entry := Entry(MERGE_KEY, 1, Mapping(inner));
    SingleEntry(entry, [], aliases);
    OneKey(entry);
    assert EffectiveAt(inner, 0, [s]);
    assert EffectiveAt([entry], 0, [s]);
  }
}
