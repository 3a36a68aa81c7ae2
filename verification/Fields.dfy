/** The settings of the configuration type, in declaration order
    (internal/config/fields.go).  A type is the list of its fields; a field is a
    setting or a nested section. */
module Fields {
  import opened Strings
  import opened EnvTag

  datatype Field =
    | Setting(exported: bool, yamlTag: string, envTag: string, secret: bool)
    | Section(exported: bool, yamlTag: string, envTag: string, fields: seq<Field>)

  type Path = seq<string>

  datatype Leaf = Leaf(yamlPath: Path, envKey: string, def: string, hasDefault: bool, secret: bool, index: seq<nat>)

  datatype Error = UnknownTagOption | UntaggedField

  datatype Walked = Leaves(leaves: seq<Leaf>) | Err(error: Error)

  /** The key a field takes in the file; a tag of "-" keeps it out of the file. */
  function YamlFieldName(field: Field): Option<string> {
    if field.yamlTag == "-" then None else Some(TrimSpace(Split(',', field.yamlTag)[0]))
  }

  predicate Skipped(field: Field) {
    !field.exported || YamlFieldName(field).None?
  }

  /** What one field adds to the list. */
  function WalkField(field: Field, yamlPath: Path, envPrefix: string, index: seq<nat>): Walked
    decreases field, 0
  {
    if Skipped(field) then Leaves([])
    else
      var childPath := yamlPath + [YamlFieldName(field).value];
      match Parsed(field.envTag)
      case UnknownOption(_) => Err(UnknownTagOption)
      case Ok(tag) =>
        match field
        case Section(_, _, _, fields) => Walk(fields, 0, childPath, envPrefix + tag.prefix, index)
        case Setting(_, _, _, secret) =>
          if YamlFieldName(field).value == "" || tag.key == "" then Err(UntaggedField)
          else Leaves([Leaf(childPath, envPrefix + tag.key, tag.def, tag.hasDefault, secret, index)])
  }

  /** The settings of a type from field number fieldNum on. */
  function Walk(typ: seq<Field>, fieldNum: nat, yamlPath: Path, envPrefix: string, index: seq<nat>): Walked
    requires fieldNum <= |typ|
    decreases typ, |typ| - fieldNum + 1
  {
    if fieldNum == |typ| then Leaves([])
    else
      match WalkField(typ[fieldNum], yamlPath, envPrefix, index + [fieldNum])
      case Err(error) => Err(error)
      case Leaves(first) =>
        match Walk(typ, fieldNum + 1, yamlPath, envPrefix, index)
        case Err(error) => Err(error)
        case Leaves(rest) => Leaves(first + rest)
  }

  /** A walk whose settings are appended to a list. */
  function Appended(out: seq<Leaf>, walked: Walked): Walked {
    match walked
    case Err(_) => walked
    case Leaves(leaves) => Leaves(out + leaves)
  }

  lemma AppendField(out: seq<Leaf>, typ: seq<Field>, fieldNum: nat, yamlPath: Path, envPrefix: string, index: seq<nat>)
    requires fieldNum < |typ|
    ensures var first := WalkField(typ[fieldNum], yamlPath, envPrefix, index + [fieldNum]);
            Appended(out, Walk(typ, fieldNum, yamlPath, envPrefix, index)) ==
            if first.Err? then first
            else Appended(out + first.leaves, Walk(typ, fieldNum + 1, yamlPath, envPrefix, index))
  {
    var first := WalkField(typ[fieldNum], yamlPath, envPrefix, index + [fieldNum]);
    var rest := Walk(typ, fieldNum + 1, yamlPath, envPrefix, index);
    if first.Leaves? && rest.Leaves? {
      assert out + (first.leaves + rest.leaves) == out + first.leaves + rest.leaves;
    }
  }

  /** The walk itself appends to one list across the recursion. */
  method WalkFields(typ: seq<Field>, yamlPath: Path, envPrefix: string, index: seq<nat>, out: seq<Leaf>)
    returns (r: Walked)
    ensures r == Appended(out, Walk(typ, 0, yamlPath, envPrefix, index))
    decreases typ
  {
    var grown := out;
    for fieldNum := 0 to |typ|
      invariant Appended(grown, Walk(typ, fieldNum, yamlPath, envPrefix, index)) ==
                Appended(out, Walk(typ, 0, yamlPath, envPrefix, index))
    {
      var field := typ[fieldNum];
      AppendField(grown, typ, fieldNum, yamlPath, envPrefix, index);
      if Skipped(field) {
        assert grown + [] == grown;
        continue;
      }

      var parsed := ParseEnvTag(field.envTag);
      if parsed.UnknownOption? {
        return Err(UnknownTagOption);
      }

      var yamlName := YamlFieldName(field).value;
      var childPath := yamlPath + [yamlName];
      var childIndex := index + [fieldNum];
      if field.Section? {
        r := WalkFields(field.fields, childPath, envPrefix + parsed.tag.prefix, childIndex, grown);
        if r.Err? {
          return;
        }
        grown := r.leaves;
        continue;
      }
      if yamlName == "" || parsed.tag.key == "" {
        return Err(UntaggedField);
      }
      grown := grown + [Leaf(childPath, envPrefix + parsed.tag.key, parsed.tag.def, parsed.tag.hasDefault, field.secret,
                             childIndex)];
    }
    assert grown + [] == grown;
    return Leaves(grown);
  }

  // ----- the shape of the list -----

  /** Keys a plain YAML scalar can spell and a colon can end. */
  predicate Plain(key: string) {
    key != "" && forall c | c in key :: 'a' <= c <= 'z' || '0' <= c <= '9' || c == '_'
  }

  /** The fields of every section have names of their own. */
  ghost predicate WellNamed(typ: seq<Field>) {
    && (forall i | 0 <= i < |typ| && !Skipped(typ[i]) :: Plain(YamlFieldName(typ[i]).value))
    && (forall i, k | 0 <= i < k < |typ| && !Skipped(typ[i]) && !Skipped(typ[k]) ::
          YamlFieldName(typ[i]) != YamlFieldName(typ[k]))
    && (forall i | 0 <= i < |typ| && typ[i].Section? :: WellNamed(typ[i].fields))
  }

  function Paths(leaves: seq<Leaf>): seq<Path> {
    seq(|leaves|, i requires 0 <= i < |leaves| => leaves[i].yamlPath)
  }

  ghost predicate Agree(p: Path, q: Path, n: nat) {
    n <= |p| && n <= |q| && p[..n] == q[..n]
  }

  /** No path leads through another, and what two of them share is shared by all
      between them: the settings of one section arrive together. */
  ghost predicate Grouped(paths: seq<Path>) {
    && (forall i, k | 0 <= i < |paths| && 0 <= k < |paths| && i != k :: !(paths[i] <= paths[k]))
    && (forall i, j, k, n: nat | 0 <= i < j < k < |paths| && Agree(paths[i], paths[k], n) ::
          Agree(paths[j], paths[k], n))
  }

  /** Every path goes on from base with one of the names. */
  ghost predicate Under(base: Path, names: set<string>, paths: seq<Path>) {
    forall i | 0 <= i < |paths| :: base < paths[i] && paths[i][|base|] in names &&
      forall n | n in paths[i][|base|..] :: Plain(n)
  }

  lemma AgreeStops(p: Path, q: Path, n: nat, at: nat)
    requires Agree(p, q, n) && at < |p| && at < |q| && p[at] != q[at]
    ensures n <= at
  {
  }

  lemma GroupedConcat(base: Path, some: set<string>, others: set<string>, p: seq<Path>, q: seq<Path>)
    requires Grouped(p) && Grouped(q) && Under(base, some, p) && Under(base, others, q) && some !! others
    ensures Grouped(p + q) && Under(base, some + others, p + q)
  {
    var all := p + q;
    forall i, k | 0 <= i < |p| && 0 <= k < |q|
      ensures !(p[i] <= q[k]) && !(q[k] <= p[i])
    {
      assert p[i][|base|] != q[k][|base|];
    }
    forall i, j, k, n: nat | 0 <= i < j < k < |all| && Agree(all[i], all[k], n)
      ensures Agree(all[j], all[k], n)
    {
      if k < |p| {
      } else if i >= |p| {
        assert Agree(q[i - |p|], q[k - |p|], n);
      } else {
        AgreeStops(all[i], all[k], n, |base|);
        assert all[j][..|base|] == base && all[k][..|base|] == base;
        assert all[j][..n] == all[j][..|base|][..n] && all[k][..n] == all[k][..|base|][..n];
      }
    }
  }

  ghost function NamesFrom(typ: seq<Field>, fieldNum: nat): set<string> {
    set i | fieldNum <= i < |typ| && !Skipped(typ[i]) :: YamlFieldName(typ[i]).value
  }

  lemma {:induction false} FieldIsGrouped(field: Field, base: Path, envPrefix: string, index: seq<nat>)
    requires !Skipped(field) ==> Plain(YamlFieldName(field).value)
    requires field.Section? ==> WellNamed(field.fields)
    requires WalkField(field, base, envPrefix, index).Leaves?
    ensures var paths := Paths(WalkField(field, base, envPrefix, index).leaves);
            && Grouped(paths)
            && (!Skipped(field) ==> Under(base, {YamlFieldName(field).value}, paths))
            && (Skipped(field) ==> paths == [])
    decreases field, 0
  {
    var paths := Paths(WalkField(field, base, envPrefix, index).leaves);
    if !Skipped(field) {
      var name := YamlFieldName(field).value;
      if field.Section? {
        var tag := Parsed(field.envTag).tag;
        WalkIsGrouped(field.fields, 0, base + [name], envPrefix + tag.prefix, index);
        UnderParent(base, name, NamesFrom(field.fields, 0), paths);
      } else {
        assert paths == [base + [name]];
        assert (base + [name])[|base|..] == [name];
      }
    }
  }

  lemma UnderParent(base: Path, name: string, names: set<string>, paths: seq<Path>)
    requires Plain(name) && Under(base + [name], names, paths)
    ensures Under(base, {name}, paths)
  {
    var childPath := base + [name];
    forall i | 0 <= i < |paths|
      ensures base < paths[i] && paths[i][|base|] == name && forall n | n in paths[i][|base|..] :: Plain(n)
    {
      assert childPath < paths[i];
      assert paths[i][..|base|] == childPath[..|base|] == base && paths[i][|base|] == childPath[|base|];
      assert paths[i][|base|..] == [name] + paths[i][|childPath|..];
    }
  }

  lemma {:induction false} WalkIsGrouped(typ: seq<Field>, fieldNum: nat, base: Path, envPrefix: string, index: seq<nat>)
    requires WellNamed(typ) && fieldNum <= |typ|
    requires Walk(typ, fieldNum, base, envPrefix, index).Leaves?
    ensures var paths := Paths(Walk(typ, fieldNum, base, envPrefix, index).leaves);
            Grouped(paths) && Under(base, NamesFrom(typ, fieldNum), paths)
    decreases typ, |typ| - fieldNum + 1
  {
    if fieldNum < |typ| {
      var field := typ[fieldNum];
      var first := WalkField(field, base, envPrefix, index + [fieldNum]).leaves;
      var rest := Walk(typ, fieldNum + 1, base, envPrefix, index).leaves;
      FieldIsGrouped(field, base, envPrefix, index + [fieldNum]);
      WalkIsGrouped(typ, fieldNum + 1, base, envPrefix, index);
      ExtendList(typ, fieldNum, base, first, rest);
    }
  }

  /** The settings of one field, then those of the fields after it. */
  lemma {:induction false} ExtendList(typ: seq<Field>, fieldNum: nat, base: Path, first: seq<Leaf>, rest: seq<Leaf>)
    requires fieldNum < |typ|
    requires forall k | fieldNum < k < |typ| && !Skipped(typ[fieldNum]) && !Skipped(typ[k]) ::
               YamlFieldName(typ[fieldNum]) != YamlFieldName(typ[k])
    requires Skipped(typ[fieldNum]) ==> Paths(first) == []
    requires !Skipped(typ[fieldNum]) ==>
             Grouped(Paths(first)) && Under(base, {YamlFieldName(typ[fieldNum]).value}, Paths(first))
    requires Grouped(Paths(rest)) && Under(base, NamesFrom(typ, fieldNum + 1), Paths(rest))
    ensures Grouped(Paths(first + rest)) && Under(base, NamesFrom(typ, fieldNum), Paths(first + rest))
  {
    assert Paths(first + rest) == Paths(first) + Paths(rest);
    if Skipped(typ[fieldNum]) {
      assert NamesFrom(typ, fieldNum) == NamesFrom(typ, fieldNum + 1);
      assert Paths(first) + Paths(rest) == Paths(rest);
    } else {
      var name := YamlFieldName(typ[fieldNum]).value;
      assert NamesFrom(typ, fieldNum) == {name} + NamesFrom(typ, fieldNum + 1);
      GroupedConcat(base, {name}, NamesFrom(typ, fieldNum + 1), Paths(first), Paths(rest));
    }
  }

  /** The list computeLeaves returns for a type whose sections name their fields apart. */
  lemma LeavesAreGrouped(typ: seq<Field>)
    requires WellNamed(typ) && Walk(typ, 0, [], "", []).Leaves?
    ensures var paths := Paths(Walk(typ, 0, [], "", []).leaves);
            && Grouped(paths)
            && (forall i | 0 <= i < |paths| :: paths[i] != [] && forall n | n in paths[i] :: Plain(n))
  {
    WalkIsGrouped(typ, 0, [], "", []);
    var paths := Paths(Walk(typ, 0, [], "", []).leaves);
    assert forall i | 0 <= i < |paths| :: paths[i][0..] == paths[i];
  }

  /** The field index of every leaf goes on from base with field number from or later. */
  ghost predicate IndexedFrom(base: seq<nat>, from: nat, leaves: seq<Leaf>) {
    forall i | 0 <= i < |leaves| ::
      |leaves[i].index| > |base| && leaves[i].index[..|base|] == base && leaves[i].index[|base|] >= from
  }

  /** The first field comes before the second in the declaration. */
  ghost predicate Earlier(a: seq<nat>, b: seq<nat>) {
    exists n: nat :: EarlierAt(a, b, n)
  }

  predicate EarlierAt(a: seq<nat>, b: seq<nat>, n: nat) {
    n < |a| && n < |b| && a[..n] == b[..n] && a[n] < b[n]
  }

  ghost predicate IndicesAscend(leaves: seq<Leaf>) {
    forall i, k | 0 <= i < k < |leaves| :: Earlier(leaves[i].index, leaves[k].index)
  }

  /** The settings of any type stand in the order of their declaration, none twice. */
  lemma {:induction false} WalkIndicesDiffer(typ: seq<Field>, fieldNum: nat, base: Path, envPrefix: string,
                                             index: seq<nat>)
    requires fieldNum <= |typ| && Walk(typ, fieldNum, base, envPrefix, index).Leaves?
    ensures var leaves := Walk(typ, fieldNum, base, envPrefix, index).leaves;
            IndicesAscend(leaves) && IndexedFrom(index, fieldNum, leaves)
    decreases typ, |typ| - fieldNum + 1
  {
    if fieldNum < |typ| {
      var first := WalkField(typ[fieldNum], base, envPrefix, index + [fieldNum]).leaves;
      var rest := Walk(typ, fieldNum + 1, base, envPrefix, index).leaves;
      FieldIndicesDiffer(typ[fieldNum], base, envPrefix, index, fieldNum);
      WalkIndicesDiffer(typ, fieldNum + 1, base, envPrefix, index);
      forall i, k | 0 <= i < |first| && 0 <= k < |rest|
        ensures Earlier(first[i].index, rest[k].index)
      {
        assert EarlierAt(first[i].index, rest[k].index, |index|);
      }
    }
  }

  lemma StartsWith(numbers: seq<nat>, index: seq<nat>, fieldNum: nat)
    requires |numbers| > |index| && numbers[..|index| + 1] == index + [fieldNum]
    ensures numbers[..|index|] == index && numbers[|index|] == fieldNum
  {
    assert numbers[..|index|] == numbers[..|index| + 1][..|index|];
  }

  lemma {:induction false} FieldIndicesDiffer(field: Field, base: Path, envPrefix: string, index: seq<nat>,
                                              fieldNum: nat)
    requires WalkField(field, base, envPrefix, index + [fieldNum]).Leaves?
    ensures var leaves := WalkField(field, base, envPrefix, index + [fieldNum]).leaves;
            && IndicesAscend(leaves) && IndexedFrom(index, fieldNum, leaves)
            && forall i | 0 <= i < |leaves| :: leaves[i].index[|index|] == fieldNum
    decreases field, 0
  {
    var leaves := WalkField(field, base, envPrefix, index + [fieldNum]).leaves;
    if !Skipped(field) && field.Section? {
      var tag := Parsed(field.envTag).tag;
      WalkIndicesDiffer(field.fields, 0, base + [YamlFieldName(field).value], envPrefix + tag.prefix,
                        index + [fieldNum]);
      forall i | 0 <= i < |leaves|
        ensures leaves[i].index[..|index|] == index && leaves[i].index[|index|] == fieldNum
      {
        StartsWith(leaves[i].index, index, fieldNum);
      }
    }
  }

  /** Leaving settings out keeps the list grouped. */
  lemma SublistIsGrouped(paths: seq<Path>, chosen: seq<nat>)
    requires Grouped(paths)
    requires forall i | 0 <= i < |chosen| :: chosen[i] < |paths|
    requires forall i, k | 0 <= i < k < |chosen| :: chosen[i] < chosen[k]
    ensures Grouped(seq(|chosen|, i requires 0 <= i < |chosen| => paths[chosen[i]]))
  {
  }

  // ----- which settings there are -----

  /** The field numbers lead from the type through sections down to the last of these
      fields, none of them hidden or kept out of the file. */
  ghost predicate Down(typ: seq<Field>, numbers: seq<nat>, fields: seq<Field>)
    decreases |numbers|
  {
    && numbers != [] && |fields| == |numbers| && numbers[0] < |typ|
    && fields[0] == typ[numbers[0]] && fields[0].exported && fields[0].yamlTag != "-"
    && (|numbers| > 1 ==> fields[0].Section? && Down(fields[0].fields, numbers[1..], fields[1..]))
  }

  function TagOf(field: Field): EnvTag {
    match Parsed(field.envTag)
    case Ok(tag) => tag
    case UnknownOption(_) => EnvTag("", "", "", false)
  }

  function NameOf(field: Field): string {
    TrimSpace(Split(',', field.yamlTag)[0])
  }

  function Names(fields: seq<Field>): Path {
    seq(|fields|, i requires 0 <= i < |fields| => NameOf(fields[i]))
  }

  /** The prefixes of the sections, outermost first, and then the key of the setting. */
  function EnvKeyOf(fields: seq<Field>): string
    requires fields != []
  {
    if |fields| == 1 then TagOf(fields[0]).key else TagOf(fields[0]).prefix + EnvKeyOf(fields[1..])
  }

  /** The setting these fields lead to, by their tags alone. */
  function LeafOf(numbers: seq<nat>, fields: seq<Field>): Leaf
    requires fields != []
  {
    var last := fields[|fields| - 1];
    Leaf(Names(fields), EnvKeyOf(fields), TagOf(last).def, TagOf(last).hasDefault,
         last.Setting? && last.secret, numbers)
  }

  /** The same, for a type that is itself a section below others. */
  function Below(leaf: Leaf, base: Path, envPrefix: string, index: seq<nat>): Leaf {
    leaf.(yamlPath := base + leaf.yamlPath, envKey := envPrefix + leaf.envKey, index := index + leaf.index)
  }

  ghost predicate LeadsToSetting(typ: seq<Field>, numbers: seq<nat>, fields: seq<Field>) {
    Down(typ, numbers, fields) && fields[|fields| - 1].Setting?
  }

  /** leaf is a setting of the type, from field number from on. */
  ghost predicate IsSetting(typ: seq<Field>, from: nat, base: Path, envPrefix: string, index: seq<nat>, leaf: Leaf) {
    exists numbers: seq<nat>, fields ::
      LeadsToSetting(typ, numbers, fields) && from <= numbers[0]
      && leaf == Below(LeafOf(numbers, fields), base, envPrefix, index)
  }

  lemma {:induction false} WalkListsSettings(
    typ: seq<Field>, from: nat, base: Path, envPrefix: string, index: seq<nat>, leaf: Leaf)
    requires from <= |typ| && Walk(typ, from, base, envPrefix, index).Leaves?
    ensures leaf in Walk(typ, from, base, envPrefix, index).leaves <==>
            IsSetting(typ, from, base, envPrefix, index, leaf)
    decreases typ, |typ| - from + 1
  {
    if from < |typ| {
      FieldListsSettings(typ, from, base, envPrefix, index, leaf);
      WalkListsSettings(typ, from + 1, base, envPrefix, index, leaf);
    }
  }

  /** leaf is a setting of that one field. */
  ghost predicate IsSettingOf(typ: seq<Field>, number: nat, base: Path, envPrefix: string, index: seq<nat>,
                              leaf: Leaf)
  {
    exists numbers: seq<nat>, fields ::
      LeadsToSetting(typ, numbers, fields) && numbers[0] == number
      && leaf == Below(LeafOf(numbers, fields), base, envPrefix, index)
  }

  lemma {:induction false} FieldListsSettings(
    typ: seq<Field>, number: nat, base: Path, envPrefix: string, index: seq<nat>, leaf: Leaf)
    requires number < |typ| && WalkField(typ[number], base, envPrefix, index + [number]).Leaves?
    ensures leaf in WalkField(typ[number], base, envPrefix, index + [number]).leaves <==>
            IsSettingOf(typ, number, base, envPrefix, index, leaf)
    decreases typ[number], 0
  {
    var field := typ[number];
    if !Skipped(field) {
      if field.Setting? {
        OwnSetting(typ, number, base, envPrefix, index, leaf);
      } else {
        WalkListsSettings(field.fields, 0, base + [NameOf(field)], envPrefix + TagOf(field).prefix, index + [number],
                          leaf);
        SettingsOneSectionUp(typ, number, base, envPrefix, index, leaf);
      }
    }
  }

  lemma SettingsOneSectionUp(
    typ: seq<Field>, number: nat, base: Path, envPrefix: string, index: seq<nat>, leaf: Leaf)
    requires number < |typ| && typ[number].Section? && !Skipped(typ[number])
    ensures var field := typ[number];
            IsSettingOf(typ, number, base, envPrefix, index, leaf) <==>
            IsSetting(field.fields, 0, base + [NameOf(field)], envPrefix + TagOf(field).prefix, index + [number], leaf)
  {
    var field := typ[number];
    var below, prefix, at := base + [NameOf(field)], envPrefix + TagOf(field).prefix, index + [number];
    if IsSetting(field.fields, 0, below, prefix, at, leaf) {
      var numbers: seq<nat>, fields :|
        LeadsToSetting(field.fields, numbers, fields) && leaf == Below(LeafOf(numbers, fields), below, prefix, at);
      OneSectionUp(typ, number, numbers, fields);
      LeafOneSectionUp(field, number, numbers, fields, base, envPrefix, index);
    }
    if IsSettingOf(typ, number, base, envPrefix, index, leaf) {
      var numbers: seq<nat>, fields :| LeadsToSetting(typ, numbers, fields) && numbers[0] == number
        && leaf == Below(LeafOf(numbers, fields), base, envPrefix, index);
      assert numbers == [number] + numbers[1..] && fields == [field] + fields[1..];
      OneSectionUp(typ, number, numbers[1..], fields[1..]);
      LeafOneSectionUp(field, number, numbers[1..], fields[1..], base, envPrefix, index);
    }
  }

  lemma OwnSetting(typ: seq<Field>, number: nat, base: Path, envPrefix: string, index: seq<nat>, leaf: Leaf)
    requires number < |typ| && typ[number].Setting? && !Skipped(typ[number])
    requires WalkField(typ[number], base, envPrefix, index + [number]).Leaves?
    ensures leaf in WalkField(typ[number], base, envPrefix, index + [number]).leaves <==>
            IsSettingOf(typ, number, base, envPrefix, index, leaf)
  {
    var field := typ[number];
    var own := Below(LeafOf([number], [field]), base, envPrefix, index);
    assert Names([field]) == [NameOf(field)];
    assert WalkField(field, base, envPrefix, index + [number]).leaves == [own];
    assert LeadsToSetting(typ, [number], [field]);
    forall numbers: seq<nat>, fields | LeadsToSetting(typ, numbers, fields) && numbers[0] == number
      ensures numbers == [number] && fields == [field]
    {
    }
  }

  lemma OneSectionUp(typ: seq<Field>, number: nat, numbers: seq<nat>, fields: seq<Field>)
    requires number < |typ| && typ[number].Section? && !Skipped(typ[number]) && fields != [] && |numbers| == |fields|
    ensures LeadsToSetting(typ[number].fields, numbers, fields) <==>
            LeadsToSetting(typ, [number] + numbers, [typ[number]] + fields)
  {
    var more := [typ[number]] + fields;
    assert more[1..] == fields && ([number] + numbers)[1..] == numbers;
    assert more[|more| - 1] == fields[|fields| - 1];
  }

  lemma LeafOneSectionUp(
    field: Field, number: nat, numbers: seq<nat>, fields: seq<Field>, base: Path, envPrefix: string, index: seq<nat>)
    requires fields != []
    ensures Below(LeafOf(numbers, fields), base + [NameOf(field)], envPrefix + TagOf(field).prefix, index + [number])
            == Below(LeafOf([number] + numbers, [field] + fields), base, envPrefix, index)
  {
    var more := [field] + fields;
    assert more[1..] == fields && more[|more| - 1] == fields[|fields| - 1];
    assert Names(more) == [NameOf(field)] + Names(fields);
    assert base + ([NameOf(field)] + Names(fields)) == base + [NameOf(field)] + Names(fields);
    assert envPrefix + (TagOf(field).prefix + EnvKeyOf(fields)) == envPrefix + TagOf(field).prefix + EnvKeyOf(fields);
    assert index + ([number] + numbers) == index + [number] + numbers;
  }

  /** The list holds exactly the settings there are, each under the keys on the way down to
      it, with the prefixes on the way down and its own key for a variable, and with its own
      default and secrecy; and it holds them in the order of their declaration. */
  lemma LeavesAreTheSettings(typ: seq<Field>, leaves: seq<Leaf>)
    requires Walk(typ, 0, [], "", []) == Leaves(leaves)
    ensures forall leaf :: leaf in leaves <==>
              exists numbers: seq<nat>, fields ::
                LeadsToSetting(typ, numbers, fields) && leaf == LeafOf(numbers, fields)
    ensures IndicesAscend(leaves)
  {
    WalkIndicesDiffer(typ, 0, [], "", []);
    forall leaf
      ensures leaf in leaves <==>
              exists numbers: seq<nat>, fields ::
                LeadsToSetting(typ, numbers, fields) && leaf == LeafOf(numbers, fields)
    {
      WalkListsSettings(typ, 0, [], "", [], leaf);
      forall numbers: seq<nat>, fields | LeadsToSetting(typ, numbers, fields)
        ensures Below(LeafOf(numbers, fields), [], "", []) == LeafOf(numbers, fields)
      {
      }
    }
  }

  // ----- which types are refused -----

  /** The tags of the field will not do. */
  predicate Refused(field: Field) {
    Parsed(field.envTag).UnknownOption? || (field.Setting? && (NameOf(field) == "" || TagOf(field).key == ""))
  }

  ghost predicate LeadsToRefused(typ: seq<Field>, from: nat, numbers: seq<nat>, fields: seq<Field>) {
    Down(typ, numbers, fields) && from <= numbers[0] && Refused(fields[|fields| - 1])
  }

  ghost predicate HasRefused(typ: seq<Field>, from: nat) {
    exists numbers: seq<nat>, fields :: LeadsToRefused(typ, from, numbers, fields)
  }

  /** The walk fails exactly if the tags of some field on the way to a setting, or of a
      setting, will not do. */
  lemma {:induction false} WalkRefusedIff(typ: seq<Field>, from: nat, base: Path, envPrefix: string, index: seq<nat>)
    requires from <= |typ|
    ensures Walk(typ, from, base, envPrefix, index).Err? <==> HasRefused(typ, from)
    decreases typ, |typ| - from + 1
  {
    if from < |typ| {
      FieldRefusedIff(typ, from, base, envPrefix, index);
      WalkRefusedIff(typ, from + 1, base, envPrefix, index);
      if HasRefused(typ, from) {
        var numbers: seq<nat>, fields :| LeadsToRefused(typ, from, numbers, fields);
        assert numbers[0] == from || LeadsToRefused(typ, from + 1, numbers, fields);
      }
      if HasRefused(typ, from + 1) {
        var numbers: seq<nat>, fields :| LeadsToRefused(typ, from + 1, numbers, fields);
        assert LeadsToRefused(typ, from, numbers, fields);
      }
    }
  }

  ghost predicate FieldHasRefused(typ: seq<Field>, number: nat) {
    exists numbers: seq<nat>, fields :: LeadsToRefused(typ, number, numbers, fields) && numbers[0] == number
  }

  lemma {:induction false} FieldRefusedIff(typ: seq<Field>, number: nat, base: Path, envPrefix: string, index: seq<nat>)
    requires number < |typ|
    ensures WalkField(typ[number], base, envPrefix, index + [number]).Err? <==> FieldHasRefused(typ, number)
    decreases typ[number], 0
  {
    var field := typ[number];
    if !Skipped(field) {
      if Refused(field) {
        assert LeadsToRefused(typ, number, [number], [field]);
      } else if field.Section? {
        WalkRefusedIff(field.fields, 0, base + [NameOf(field)], envPrefix + TagOf(field).prefix, index + [number]);
        SectionHasRefused(typ, number);
      }
    }
  }

  lemma SectionHasRefused(typ: seq<Field>, number: nat)
    requires number < |typ| && typ[number].Section? && !Skipped(typ[number]) && !Refused(typ[number])
    ensures FieldHasRefused(typ, number) <==> HasRefused(typ[number].fields, 0)
  {
    var field := typ[number];
    if numbers: seq<nat>, fields :| LeadsToRefused(field.fields, 0, numbers, fields) {
      RefusedOneSectionUp(typ, number, numbers, fields);
    }
    if FieldHasRefused(typ, number) {
      var numbers: seq<nat>, fields :| LeadsToRefused(typ, number, numbers, fields) && numbers[0] == number;
      assert numbers == [number] + numbers[1..] && fields == [field] + fields[1..];
      if |fields| > 1 {
        assert fields[1..][|fields| - 2] == fields[|fields| - 1];
        RefusedOneSectionUp(typ, number, numbers[1..], fields[1..]);
      }
    }
  }

  lemma RefusedOneSectionUp(typ: seq<Field>, number: nat, numbers: seq<nat>, fields: seq<Field>)
    requires number < |typ| && typ[number].Section? && !Skipped(typ[number]) && fields != [] && |numbers| == |fields|
    ensures LeadsToRefused(typ[number].fields, 0, numbers, fields) <==>
            LeadsToRefused(typ, number, [number] + numbers, [typ[number]] + fields)
  {
    var more := [typ[number]] + fields;
    assert more[1..] == fields && ([number] + numbers)[1..] == numbers;
    assert more[|more| - 1] == fields[|fields| - 1];
  }
}
