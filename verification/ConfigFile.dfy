/** The configuration file from end to end: renamed, checked, decoded and merged
    (internal/config/config.go). */
module ConfigFile {
  import opened AliasTables
  import opened Document
  import opened MergeKeys
  import opened Schema
  import opened Strings
  import opened YamlAlias
  import Merge
  import Fields

  // ----- decoding into a plain map -----

  /** The keys a mapping writes win over those its merge key brings in.  A merge key without
      a mapping stops the load; here it brings nothing. */
  function Decoded(entries: seq<Entry>): map<string, Merge.Node>
    decreases entries, 1
  {
    Merged(entries) + Written(entries)
  }

  function DecodedNode(node: Node): Merge.Node
    decreases node, 2
  {
    if node.Mapping? then Merge.Mapping(Decoded(node.entries)) else Merge.Scalar
  }

  function Merged(entries: seq<Entry>): map<string, Merge.Node>
    decreases entries, 0
  {
    if entries == [] then map[]
    else
      var Entry(key, _, value) := entries[0];
      var brought := if key == MERGE_KEY && value.Mapping? then Decoded(value.entries) else map[];
      Merged(entries[1..]) + brought
  }

  function Written(entries: seq<Entry>): map<string, Merge.Node>
    decreases entries, 0
  {
    if entries == [] then map[]
    else
      var rest := Written(entries[1..]);
      if entries[0].key == MERGE_KEY then rest else rest[entries[0].key := DecodedNode(entries[0].value)]
  }

  lemma {:induction false} WrittenIff(entries: seq<Entry>, key: string)
    ensures key in Written(entries) <==> key in KeySet(entries) && key != MERGE_KEY
  {
    if entries != [] {
      TailKeys(entries);
      WrittenIff(entries[1..], key);
    }
  }

  lemma {:induction false} WrittenAt(entries: seq<Entry>, i: nat)
    requires DistinctKeys(entries) && i < |entries| && entries[i].key != MERGE_KEY
    ensures entries[i].key in Written(entries) && Written(entries)[entries[i].key] == DecodedNode(entries[i].value)
  {
    if i > 0 {
      WrittenAt(entries[1..], i - 1);
    }
  }

  lemma {:induction false} NothingMerged(entries: seq<Entry>)
    requires MERGE_KEY !in KeySet(entries)
    ensures Merged(entries) == map[]
  {
    if entries != [] {
      TailKeys(entries);
      NothingMerged(entries[1..]);
    }
  }

  lemma {:induction false} MergedAt(entries: seq<Entry>, i: nat)
    requires WellFormed(entries) && i < |entries| && entries[i].key == MERGE_KEY
    ensures Merged(entries) == Decoded(EntriesOf(entries[i].value))
  {
    TailKeys(entries);
    if i == 0 {
      NothingMerged(entries[1..]);
    } else {
      MergedAt(entries[1..], i - 1);
    }
  }

  /** The decoded map is without merge keys. */
  lemma {:induction false} NoMergeKeyDecoded(entries: seq<Entry>)
    ensures MERGE_KEY !in Decoded(entries)
    decreases entries, 1
  {
    WrittenIff(entries, MERGE_KEY);
    NoMergeKeyMerged(entries);
  }

  lemma {:induction false} NoMergeKeyMerged(entries: seq<Entry>)
    ensures MERGE_KEY !in Merged(entries)
    decreases entries, 0
  {
    if entries != [] {
      NoMergeKeyMerged(entries[1..]);
      if entries[0].value.Mapping? {
        NoMergeKeyDecoded(entries[0].value.entries);
      }
    }
  }

  /** What the decoded map names is what takes effect in the document. */
  lemma {:induction false} NamesIff(entries: seq<Entry>, p: Path)
    requires WellFormed(entries)
    ensures Merge.Names(Decoded(entries), p) <==> Effective(entries, p)
    decreases entries
  {
    NoMergeKeyDecoded(entries);
    if p != [] && p[0] != MERGE_KEY {
      WrittenIff(entries, p[0]);
      if i: nat :| i < |entries| && entries[i].key == p[0] {
        NamesWritten(entries, i, p);
      } else if i: nat :| i < |entries| && entries[i].key == MERGE_KEY {
        NamesMerged(entries, i, p);
      } else {
        NothingMerged(entries);
        if Effective(entries, p) {
          TakenFromEither(entries, p);
        }
      }
    }
  }

  lemma TakenFromEither(entries: seq<Entry>, p: Path)
    requires Effective(entries, p)
    ensures p[0] in KeySet(entries) || MERGE_KEY in KeySet(entries)
  {
    assert Effective(entries, p);
    var k :| 0 <= k < |entries| && EffectiveAt(entries, k, p);
    assert entries[k].key in KeySet(entries);
  }

  lemma {:induction false} NamesWritten(entries: seq<Entry>, i: nat, p: Path)
    requires WellFormed(entries) && p != [] && p[0] != MERGE_KEY && i < |entries| && entries[i].key == p[0]
    ensures Merge.Names(Decoded(entries), p) <==> Effective(entries, p)
    decreases entries, 0
  {
    WrittenAt(entries, i);
    OnlyThere(entries, i, p);
    if |p| > 1 && entries[i].value.Mapping? {
      NamesIff(entries[i].value.entries, p[1..]);
    }
  }

  lemma OnlyThere(entries: seq<Entry>, i: nat, p: Path)
    requires DistinctKeys(entries) && p != [] && p[0] != MERGE_KEY && i < |entries|
    requires entries[i].key == p[0] || (entries[i].key == MERGE_KEY && p[0] !in KeySet(entries))
    ensures Effective(entries, p) <==> EffectiveAt(entries, i, p)
  {
    if Effective(entries, p) {
      assert Effective(entries, p);
      var k :| 0 <= k < |entries| && EffectiveAt(entries, k, p);
      assert entries[k].key in KeySet(entries) && entries[i].key in KeySet(entries);
    }
  }

  lemma {:induction false} NamesMerged(entries: seq<Entry>, i: nat, p: Path)
    requires WellFormed(entries) && p != [] && p[0] != MERGE_KEY && p[0] !in KeySet(entries)
    requires i < |entries| && entries[i].key == MERGE_KEY
    ensures Merge.Names(Decoded(entries), p) <==> Effective(entries, p)
    decreases entries, 0
  {
    MergedAt(entries, i);
    WrittenIff(entries, p[0]);
    OnlyThere(entries, i, p);
    if entries[i].value.Mapping? {
      NamesIff(entries[i].value.entries, p);
    }
  }

  // ----- what becomes of a former key -----

  /** The document writes the value at p. */
  ghost predicate Holds(entries: seq<Entry>, p: Path, value: Node)
    decreases |p|
  {
    p != [] && p[0] != MERGE_KEY && exists i | 0 <= i < |entries| :: HoldsAt(entries[i], p, value)
  }

  ghost predicate HoldsAt(entry: Entry, p: Path, value: Node)
    requires p != []
    decreases |p|, 0
  {
    entry.key == p[0] && if |p| == 1 then entry.value == value else Holds(EntriesOf(entry.value), p[1..], value)
  }

  /** The decoded map has the value at p. */
  ghost predicate DecodedAs(doc: map<string, Merge.Node>, p: Path, value: Merge.Node)
    decreases |p|
  {
    && p != [] && p[0] in doc
    && if |p| == 1 then doc[p[0]] == value
       else doc[p[0]].Mapping? && DecodedAs(doc[p[0]].entries, p[1..], value)
  }

  lemma {:induction false} HeldIsThere(entries: seq<Entry>, p: Path, value: Node)
    requires Holds(entries, p, value)
    ensures HasPath(entries, p)
    decreases |p|
  {
    var i :| 0 <= i < |entries| && HoldsAt(entries[i], p, value);
    if |p| > 1 {
      HeldIsThere(EntriesOf(entries[i].value), p[1..], value);
    }
    assert entries[i].key == p[0];
  }

  lemma {:induction false} HeldIsDecoded(entries: seq<Entry>, p: Path, value: Node)
    requires WellFormed(entries) && Holds(entries, p, value)
    ensures DecodedAs(Decoded(entries), p, DecodedNode(value))
    decreases |p|
  {
    var i :| 0 <= i < |entries| && HoldsAt(entries[i], p, value);
    WrittenAt(entries, i);
    if |p| > 1 {
      HeldIsDecoded(EntriesOf(entries[i].value), p[1..], value);
    }
  }

  /** Where a former key stands once it is renamed. */
  function Landed(p: Path, current: string): Path
    requires p != []
  {
    p[..|p| - 1] + [NewLeaf(current)]
  }

  /** The plain renaming leaves its value under its new name. */
  lemma {:induction false} PlainKeepsValue(entries: seq<Entry>, path: Path, aliases: Aliases, p: Path, value: Node)
    requires Unnested(aliases) && NoMergeTargets(aliases) && Holds(entries, p, value) && IsOld(aliases, path + p)
    ensures Holds(Plain(entries, path, aliases), Landed(p, aliases[Name(path + p)]), value)
    decreases |p|
  {
    var i :| 0 <= i < |entries| && HoldsAt(entries[i], p, value);
    var landed, childPath := Landed(p, aliases[Name(path + p)]), path + [p[0]];
    FirstKeyApart(path, p);
    PlainAt(entries, path, aliases, i);
    if |p| > 1 {
      var rest := p[1..];
      if IsOld(aliases, childPath) {
        OldIsNotBeneathOld(aliases, childPath, rest);
        assert false;
      }
      PlainKeepsValue(EntriesOf(entries[i].value), childPath, aliases, rest, value);
      assert landed[1..] == Landed(rest, aliases[Name(childPath + rest)]);
    }
    assert HoldsAt(Plain(entries, path, aliases)[i], landed, value);
  }

  lemma {:induction false} PathIsUndotted(entries: seq<Entry>, p: Path)
    requires Undotted(entries) && HasPath(entries, p)
    ensures UndottedPath(p)
    decreases |p|
  {
    var i :| 0 <= i < |entries| && entries[i].key == p[0] && (|p| > 1 ==> HasPath(EntriesOf(entries[i].value), p[1..]));
    if |p| > 1 {
      PathIsUndotted(EntriesOf(entries[i].value), p[1..]);
      assert p == [p[0]] + p[1..];
    }
  }

  lemma NameWhereItLands(section: Path, key: string, current: string)
    requires Lacks('.', key) && SectionOf(Name(section + [key])) == SectionOf(current)
    ensures Name(section + [NewLeaf(current)]) == current && Lacks('.', NewLeaf(current))
  {
    LeafOfPath(section, key);
    LeafEnds(current);
    SplitParts('.', current);
    LeafOfPath(section, NewLeaf(current));
    LeafEnds(Name(section + [NewLeaf(current)]));
  }

  /** An in-place table names the place where the key lands. */
  lemma LandsOnItsName(aliases: Aliases, p: Path, q: Path)
    requires InPlace(aliases) && p != [] && UndottedPath(p) && IsOld(aliases, p)
    requires q != [] && UndottedPath(q) && Name(q) == aliases[Name(p)]
    ensures Landed(p, aliases[Name(p)]) == q
  {
    var n := |p| - 1;
    assert p == p[..n] + [p[n]];
    NameWhereItLands(p[..n], p[n], aliases[Name(p)]);
    JoinedIsInjective('.', Landed(p, aliases[Name(p)]), q);
  }

  lemma FormerKeyMoves(doc: seq<Entry>, aliases: Aliases, p: Path, value: Node, q: Path)
    requires InPlace(aliases) && ClearOfTargets(aliases) && Unnested(aliases) && NoMergeTargets(aliases)
    requires WellFormed(doc) && Undotted(doc) && !HasErrors(Rewritten(doc, [], aliases).found)
    requires Holds(doc, p, value) && IsOld(aliases, p)
    requires q != [] && UndottedPath(q) && Name(q) == aliases[Name(p)]
    ensures var r := Rewritten(doc, [], aliases);
            WellFormed(r.entries) && Holds(r.entries, q, value) && !HasPath(r.entries, p) && Reports(r.found, p)
  {
    InPlaceRewriting(doc, aliases);
    InPlaceIsSafe(aliases);
    RewritingSucceedsIff(doc, aliases, false);
    HeldIsThere(doc, p, value);
    PathIsUndotted(doc, p);
    assert [] + p == p;
    LandsOnItsName(aliases, p, q);
    PlainKeepsValue(doc, [], aliases, p, value);
  }

  /** A document that is renamed without an error: the value of a former key is decoded
      under the setting of its current name, the file decides that setting unless a variable
      does, the rewrite is reported, and the check reports neither name. */
  lemma FormerKeyFillsItsField(doc: seq<Entry>, aliases: Aliases, p: Path, value: Node, schema: DocumentSchema,
                               paths: seq<Path>, leaf: Fields.Leaf, env: Merge.Environment, variables: Merge.Aliases)
    requires InPlace(aliases) && ClearOfTargets(aliases) && Unnested(aliases) && NoMergeTargets(aliases)
    requires WellFormed(doc) && Undotted(doc) && !HasErrors(Rewritten(doc, [], aliases).found)
    requires Holds(doc, p, value) && IsOld(aliases, p)
    requires IsSchemaOf(schema, paths) && leaf.yamlPath in paths && leaf.yamlPath != [] && UndottedPath(leaf.yamlPath)
    requires Name(leaf.yamlPath) == aliases[Name(p)] && Name(leaf.yamlPath) !in RETIRED
    ensures var r := Rewritten(doc, [], aliases);
            && DecodedAs(Decoded(r.entries), leaf.yamlPath, DecodedNode(value))
            && Merge.Layer(env, variables, Decoded(r.entries), leaf)
                 == (if Merge.Supplied(env, variables, leaf.envKey) then Merge.FromEnv else Merge.FromFile)
            && Reports(r.found, p)
            && !Reports(Check(r.entries, [], schema), p) && !Reports(Check(r.entries, [], schema), leaf.yamlPath)
  {
    var r, q := Rewritten(doc, [], aliases), leaf.yamlPath;
    FormerKeyMoves(doc, aliases, p, value, q);
    HeldIsDecoded(r.entries, q, value);
    HeldIsThere(r.entries, q, value);
    WrittenIsEffective(r.entries, q);
    NamesIff(r.entries, q);
    assert [] + p == p && [] + q == q;
    CheckedIff(r.entries, [], schema, p);
    CheckedIff(r.entries, [], schema, q);
  }
}
