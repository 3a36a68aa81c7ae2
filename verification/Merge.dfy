/** Resolving a setting from three layers: the environment, the file, the default
    (internal/config/config.go, internal/config/alias.go). */
module Merge {
  import opened Fields
  import opened Strings

  // ----- the environment -----

  type Environment = map<string, string>

  /** Canonical variable to its other names, most preferred first. */
  type Aliases = map<string, seq<string>>

  /** emptyIsUnset: a variable that is set but empty counts as absent. */
  function NonEmpty(env: Environment, key: string): Option<string> {
    if key in env && env[key] != "" then Some(env[key]) else None
  }

  predicate IsSet(env: Environment, key: string) {
    NonEmpty(env, key).Some?
  }

  /** name is the variable that supplies key: key itself if it is set, or else the
      first of its other names that is. */
  ghost predicate Supplies(env: Environment, aliases: Aliases, key: string, name: string) {
    IsSet(env, name) &&
    (name == key ||
     (!IsSet(env, key) && key in aliases &&
      exists i | 0 <= i < |aliases[key]| :: aliases[key][i] == name &&
        forall k | 0 <= k < i :: !IsSet(env, aliases[key][k])))
  }

  lemma SupplierIsUnique(env: Environment, aliases: Aliases, key: string, a: string, b: string)
    requires Supplies(env, aliases, key, a) && Supplies(env, aliases, key, b)
    ensures a == b
  {
    if a != key && b != key {
      var i :| 0 <= i < |aliases[key]| && aliases[key][i] == a && forall k | 0 <= k < i :: !IsSet(env, aliases[key][k]);
      var j :| 0 <= j < |aliases[key]| && aliases[key][j] == b && forall k | 0 <= k < j :: !IsSet(env, aliases[key][k]);
      assert i == j;
    }
  }

  ghost predicate Supplied(env: Environment, aliases: Aliases, key: string) {
    exists name :: Supplies(env, aliases, key, name)
  }

  ghost function Supplier(env: Environment, aliases: Aliases, key: string): string
    requires Supplied(env, aliases, key)
  {
    var name :| Supplies(env, aliases, key, name);
    name
  }

  /** Some variable of that name, canonical or other, is there and holds text. */
  ghost predicate HasVariable(env: Environment, aliases: Aliases, key: string) {
    exists name :: name in env && env[name] != "" && (name == key || (key in aliases && name in aliases[key]))
  }

  /** A setting is supplied exactly if one of its variables holds text: one set to "" does
      not count. */
  lemma SuppliedIff(env: Environment, aliases: Aliases, key: string)
    ensures Supplied(env, aliases, key) <==> HasVariable(env, aliases, key)
  {
    if name :| name in env && env[name] != "" && (name == key || (key in aliases && name in aliases[key])) {
      if IsSet(env, key) {
        assert Supplies(env, aliases, key, key);
      } else {
        var i :| 0 <= i < |aliases[key]| && aliases[key][i] == name;
        var first := FirstSet(env, aliases[key], i);
        assert Supplies(env, aliases, key, aliases[key][first]);
      }
    }
  }

  lemma FirstSet(env: Environment, names: seq<string>, i: nat) returns (first: nat)
    requires i < |names| && IsSet(env, names[i])
    ensures first <= i && IsSet(env, names[first]) && forall k | 0 <= k < first :: !IsSet(env, names[k])
  {
    first := 0;
    while !IsSet(env, names[first])
      invariant first <= i && forall k | 0 <= k < first :: !IsSet(env, names[k])
      decreases i - first
    {
      first := first + 1;
    }
  }

  /** The canonical variable wins if it holds text, and otherwise the first of the others
      that does. */
  lemma SupplierIsPreferred(env: Environment, aliases: Aliases, key: string)
    requires Supplied(env, aliases, key)
    ensures var name := Supplier(env, aliases, key);
            && name in env && env[name] != ""
            && (key in env && env[key] != "" ==> name == key)
            && (name != key ==> key in aliases && exists i | 0 <= i < |aliases[key]| ::
                  && aliases[key][i] == name
                  && forall k | 0 <= k < i :: aliases[key][k] !in env || env[aliases[key][k]] == "")
  {
  }

  class AliasLookuper {
    const env: Environment
    const aliases: Aliases
    var used: map<string, string>

    constructor (env: Environment, aliases: Aliases)
      ensures this.env == env && this.aliases == aliases && used == map[]
    {
      this.env := env;
      this.aliases := aliases;
      used := map[];
    }

    /** Answers with the supplier's value, and records it when it is an alias. */
    method Lookup(key: string) returns (value: string, found: bool)
      modifies this
      ensures found <==> Supplied(env, aliases, key)
      ensures found ==> var name := Supplier(env, aliases, key);
                        name in env && value == env[name]
                        && used == if name == key then old(used) else old(used)[key := name]
      ensures !found ==> used == old(used) && value == ""
    {
      var inner := NonEmpty(env, key);
      if inner.Some? {
        assert Supplies(env, aliases, key, key);
        SupplierIsUnique(env, aliases, key, key, Supplier(env, aliases, key));
        return inner.value, true;
      }

      var alternatives := if key in aliases then aliases[key] else [];
      for i := 0 to |alternatives|
        invariant used == old(used)
        invariant forall k | 0 <= k < i :: !IsSet(env, alternatives[k])
      {
        inner := NonEmpty(env, alternatives[i]);
        if inner.Some? {
          assert Supplies(env, aliases, key, alternatives[i]);
          SupplierIsUnique(env, aliases, key, alternatives[i], Supplier(env, aliases, key));
          used := used[key := alternatives[i]];
          return inner.value, true;
        }
      }
      return "", false;
    }
  }

  // ----- the document -----

  datatype Node = Scalar | Mapping(entries: map<string, Node>)

  /** The document writes the key down, whatever its value. */
  ghost predicate Names(doc: map<string, Node>, path: Path)
    decreases |path|
  {
    && path != [] && path[0] in doc
    && (|path| > 1 ==> doc[path[0]].Mapping? && Names(doc[path[0]].entries, path[1..]))
  }

  method DocumentHasKey(doc: map<string, Node>, path: Path) returns (has: bool)
    ensures has <==> Names(doc, path)
  {
    var current := doc;
    for depth := 0 to |path|
      invariant depth < |path| ==> (Names(doc, path) <==> Names(current, path[depth..]))
      invariant depth == |path| ==> path == []
    {
      var key := path[depth];
      if key !in current {
        return false;
      }
      if depth == |path| - 1 {
        return true;
      }
      if current[key].Scalar? {
        return false;
      }
      assert path[depth..][1..] == path[depth + 1..];
      current := current[key].entries;
    }
    return false;
  }

  // ----- the merge -----

  type Value = nat

  /** A configuration holds a value for each field, found by its index. */
  type Config = map<seq<nat>, Value>

  datatype Origin = FromEnv | FromFile | FromDefault

  function Name(leaf: Leaf): string {
    Joined('.', leaf.yamlPath)
  }

  /** The settings are told apart by their names and by their fields. */
  ghost predicate Distinct(leaves: seq<Leaf>) {
    forall i, k | 0 <= i < k < |leaves| :: Name(leaves[i]) != Name(leaves[k]) && leaves[i].index != leaves[k].index
  }

  /** The layer that decides a setting. */
  ghost function Layer(env: Environment, aliases: Aliases, doc: map<string, Node>, leaf: Leaf): Origin {
    if Supplied(env, aliases, leaf.envKey) then FromEnv
    else if Names(doc, leaf.yamlPath) then FromFile
    else FromDefault
  }

  /** What the environment library leaves in a field: the decoded variable, or else
      the default of the tag. */
  ghost predicate Processed(
    config: Config, leaf: Leaf, env: Environment, aliases: Aliases, decode: (Leaf, string) -> Value,
    default: Leaf -> Value)
  {
    leaf.index in config &&
    config[leaf.index] ==
      if Supplied(env, aliases, leaf.envKey) && Supplier(env, aliases, leaf.envKey) in env
      then decode(leaf, env[Supplier(env, aliases, leaf.envKey)])
      else default(leaf)
  }

  /** The three layers, setting by setting. */
  ghost predicate Resolved(
    config: Config, origins: map<string, Origin>, leaf: Leaf, env: Environment, aliases: Aliases,
    doc: map<string, Node>, fromFile: Config, decode: (Leaf, string) -> Value, default: Leaf -> Value)
  {
    && leaf.index in config && Name(leaf) in origins && leaf.index in fromFile
    && origins[Name(leaf)] == Layer(env, aliases, doc, leaf)
    && match Layer(env, aliases, doc, leaf)
       case FromEnv =>
         var name := Supplier(env, aliases, leaf.envKey);
         name in env && config[leaf.index] == decode(leaf, env[name])
       case FromFile => config[leaf.index] == fromFile[leaf.index]
       case FromDefault => config[leaf.index] == default(leaf)
  }

  /** One turn of the loop over the settings. */
  method MergeLeaf(
    leaf: Leaf, resolved: Config, origins: map<string, Origin>, fromFile: Config, doc: map<string, Node>,
    lookuper: AliasLookuper, ghost decode: (Leaf, string) -> Value, ghost default: Leaf -> Value)
    returns (merged: Config, origins': map<string, Origin>)
    requires leaf.index in fromFile && Processed(resolved, leaf, lookuper.env, lookuper.aliases, decode, default)
    modifies lookuper
    ensures Resolved(merged, origins', leaf, lookuper.env, lookuper.aliases, doc, fromFile, decode, default)
    ensures merged.Keys == resolved.Keys
    ensures forall field | field in resolved && field != leaf.index :: merged[field] == resolved[field]
    ensures Name(leaf) in origins' && origins' == origins[Name(leaf) := origins'[Name(leaf)]]
  {
    merged := resolved;
    var _, found := lookuper.Lookup(leaf.envKey);
    if found {
      return merged, origins[Name(leaf) := FromEnv];
    }

    var has := DocumentHasKey(doc, leaf.yamlPath);
    if has {
      merged := merged[leaf.index := fromFile[leaf.index]];
      return merged, origins[Name(leaf) := FromFile];
    }

    return merged, origins[Name(leaf) := FromDefault];
  }

  /** resolved arrives holding what the environment library made of the variables and
      the defaults; fromFile is the decoded file.  The result holds the first layer
      that speaks about each setting, and the origins name it, for every setting and
      no other. */
  method MergeFileValues(
    leaves: seq<Leaf>, resolved: Config, fromFile: Config, doc: map<string, Node>, lookuper: AliasLookuper,
    ghost decode: (Leaf, string) -> Value, ghost default: Leaf -> Value)
    returns (merged: Config, origins: map<string, Origin>)
    requires Distinct(leaves)
    requires forall i | 0 <= i < |leaves| :: leaves[i].index in fromFile
    requires forall i | 0 <= i < |leaves| :: Processed(resolved, leaves[i], lookuper.env, lookuper.aliases, decode,
                                                       default)
    modifies lookuper
    ensures forall i | 0 <= i < |leaves| ::
              Resolved(merged, origins, leaves[i], lookuper.env, lookuper.aliases, doc, fromFile, decode, default)
    ensures forall i | 0 <= i < |leaves| :: Name(leaves[i]) in origins &&
              (origins[Name(leaves[i])] == FromEnv <==> HasVariable(lookuper.env, lookuper.aliases, leaves[i].envKey))
    ensures origins.Keys == set i | 0 <= i < |leaves| :: Name(leaves[i])
    ensures merged.Keys == resolved.Keys
    ensures forall field | field in resolved && (forall i | 0 <= i < |leaves| :: leaves[i].index != field) ::
              merged[field] == resolved[field]
  {
    merged, origins := resolved, map[];
    for i := 0 to |leaves|
      invariant MergedUpTo(i, leaves, resolved, fromFile, doc, lookuper.env, lookuper.aliases, decode, default, merged,
                           origins)
    {
      StillProcessed(i, leaves, resolved, fromFile, doc, lookuper.env, lookuper.aliases, decode, default, merged,
                     origins);
      ghost var before, known := merged, origins;
      merged, origins := MergeLeaf(leaves[i], merged, origins, fromFile, doc, lookuper, decode, default);
      MergeStep(i, leaves, resolved, fromFile, doc, lookuper.env, lookuper.aliases, decode, default,
                before, known, merged, origins);
    }
    forall i | 0 <= i < |leaves|
      ensures Supplied(lookuper.env, lookuper.aliases, leaves[i].envKey) <==>
              HasVariable(lookuper.env, lookuper.aliases, leaves[i].envKey)
    {
      SuppliedIff(lookuper.env, lookuper.aliases, leaves[i].envKey);
    }
  }

  /** The first i settings have their layer's value and origin, and nothing else is changed. */
  ghost predicate MergedUpTo(
    i: nat, leaves: seq<Leaf>, resolved: Config, fromFile: Config, doc: map<string, Node>, env: Environment,
    aliases: Aliases,
    decode: (Leaf, string) -> Value, default: Leaf -> Value, merged: Config, origins: map<string, Origin>)
  {
    && i <= |leaves| && merged.Keys == resolved.Keys
    && (forall k | 0 <= k < i :: Resolved(merged, origins, leaves[k], env, aliases, doc, fromFile, decode, default))
    && (forall field | field in resolved && (forall k | 0 <= k < i :: leaves[k].index != field) ::
          merged[field] == resolved[field])
    && origins.Keys == set k | 0 <= k < i :: Name(leaves[k])
  }

  lemma StillProcessed(
    i: nat, leaves: seq<Leaf>, resolved: Config, fromFile: Config, doc: map<string, Node>, env: Environment,
    aliases: Aliases,
    decode: (Leaf, string) -> Value, default: Leaf -> Value, merged: Config, origins: map<string, Origin>)
    requires Distinct(leaves) && i < |leaves| && Processed(resolved, leaves[i], env, aliases, decode, default)
    requires MergedUpTo(i, leaves, resolved, fromFile, doc, env, aliases, decode, default, merged, origins)
    ensures Processed(merged, leaves[i], env, aliases, decode, default)
  {
  }

  lemma MergeStep(
    i: nat, leaves: seq<Leaf>, resolved: Config, fromFile: Config, doc: map<string, Node>, env: Environment,
    aliases: Aliases,
    decode: (Leaf, string) -> Value, default: Leaf -> Value, merged: Config, origins: map<string, Origin>,
    merged': Config, origins': map<string, Origin>)
    requires Distinct(leaves) && i < |leaves|
    requires MergedUpTo(i, leaves, resolved, fromFile, doc, env, aliases, decode, default, merged, origins)
    requires Resolved(merged', origins', leaves[i], env, aliases, doc, fromFile, decode, default)
    requires merged'.Keys == merged.Keys
    requires forall field | field in merged && field != leaves[i].index :: merged'[field] == merged[field]
    requires Name(leaves[i]) in origins' && origins' == origins[Name(leaves[i]) := origins'[Name(leaves[i])]]
    ensures MergedUpTo(i + 1, leaves, resolved, fromFile, doc, env, aliases, decode, default, merged', origins')
  {
    forall k | 0 <= k < i
      ensures Resolved(merged', origins', leaves[k], env, aliases, doc, fromFile, decode, default)
    {
      assert Resolved(merged, origins, leaves[k], env, aliases, doc, fromFile, decode, default);
    }
  }

  lemma NoDots(path: Path)
    requires forall n | n in path :: Plain(n)
    ensures forall j | 0 <= j < |path| :: Lacks('.', path[j])
  {
    forall j | 0 <= j < |path|
      ensures Lacks('.', path[j])
    {
      assert path[j] in path;
    }
  }

  /** Leaves of a type whose sections name their fields apart are told apart by their
      dotted names. */
  lemma GroupedNamesDiffer(leaves: seq<Leaf>, i: nat, k: nat)
    requires i < k < |leaves| && Grouped(Paths(leaves))
    requires forall j | 0 <= j < |leaves| :: leaves[j].yamlPath != [] && forall n | n in leaves[j].yamlPath :: Plain(n)
    ensures Name(leaves[i]) != Name(leaves[k])
  {
    var p, q := leaves[i].yamlPath, leaves[k].yamlPath;
    assert Paths(leaves)[i] == p && Paths(leaves)[k] == q;
    assert !(p <= q);
    if Name(leaves[i]) == Name(leaves[k]) {
      NoDots(p);
      NoDots(q);
      JoinedIsInjective('.', p, q);
    }
  }

  /** So the settings of such a type are told apart as the merge requires. */
  lemma WalkedAreDistinct(typ: seq<Field>, leaves: seq<Leaf>)
    requires WellNamed(typ) && Walk(typ, 0, [], "", []) == Leaves(leaves)
    ensures Distinct(leaves)
  {
    LeavesAreGrouped(typ);
    WalkIndicesDiffer(typ, 0, [], "", []);
    forall i, k | 0 <= i < k < |leaves|
      ensures Name(leaves[i]) != Name(leaves[k])
    {
      assert forall j | 0 <= j < |leaves| :: Paths(leaves)[j] == leaves[j].yamlPath;
      GroupedNamesDiffer(leaves, i, k);
    }
  }
}
