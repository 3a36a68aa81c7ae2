/** Printing a configuration as YAML, rebuilding the nesting from the dotted paths
    (cmd/easyp-svc/config.go). */
module ConfigPrint {
  import opened Fields
  import opened Strings
  import Yaml

  /** A setting and its rendered value; None when rendering fails. */
  datatype Item = Item(path: Path, rendered: Option<string>)

  function Indent(depth: nat): string {
    seq(2 * depth, _ => ' ')
  }

  lemma IndentIsTwoSpaces(depth: nat)
    ensures Indent(0) == "" && Indent(depth + 1) == "  " + Indent(depth)
  {
  }

  function HeaderLine(depth: nat, key: string): string {
    Indent(depth) + key + ":"
  }

  function SettingLine(depth: nat, key: string, value: string): string {
    Indent(depth) + key + ": " + value
  }

  function Parents(path: Path): Path {
    if path == [] then [] else path[..|path| - 1]
  }

  /** How many leading elements two paths share. */
  function Shared(left: Path, right: Path): nat {
    if left != [] && right != [] && left[0] == right[0] then 1 + Shared(left[1..], right[1..]) else 0
  }

  lemma {:induction false} SharedIff(left: Path, right: Path, n: nat)
    ensures Agree(left, right, n) <==> n <= Shared(left, right)
  {
    if n > 0 && left != [] && right != [] && left[0] == right[0] {
      SharedIff(left[1..], right[1..], n - 1);
      if n <= |left| && n <= |right| {
        assert left[..n] == [left[0]] + left[1..][..n - 1] && right[..n] == [right[0]] + right[1..][..n - 1];
      }
    }
  }

  method CommonPrefix(left: Path, right: Path) returns (shared: nat)
    ensures shared == Shared(left, right)
  {
    shared := 0;
    while shared < |left| && shared < |right| && left[shared] == right[shared]
      invariant shared <= |left| && shared <= |right| && left[..shared] == right[..shared]
    {
      shared := shared + 1;
    }
    SharedIff(left, right, shared);
    SharedIff(left, right, shared + 1);
    if shared < |left| && shared < |right| {
      assert left[..shared + 1][shared] != right[..shared + 1][shared];
    }
  }

  function Headers(depth: nat, parents: Path): seq<string>
    decreases |parents| - depth
  {
    if depth >= |parents| then [] else [HeaderLine(depth, parents[depth])] + Headers(depth + 1, parents)
  }

  /** The lines of one setting that is rendered. */
  function ItemLines(previous: Path, item: Item): seq<string> {
    if item.path == [] || item.rendered.None? then []
    else
      var parents := Parents(item.path);
      Headers(Shared(previous, parents), parents)
      + [SettingLine(|parents|, item.path[|item.path| - 1], item.rendered.value)]
  }

  function Text(lines: seq<string>): string {
    if lines == [] then "" else lines[0] + "\n" + Text(lines[1..])
  }

  predicate Printable(items: seq<Item>) {
    forall i | 0 <= i < |items| :: items[i].path != [] && items[i].rendered.Some?
  }

  function AllLines(previous: Path, items: seq<Item>): seq<string>
    decreases |items|
  {
    if items == [] then [] else ItemLines(previous, items[0]) + AllLines(Parents(items[0].path), items[1..])
  }

  lemma {:induction false} TextConcat(p: seq<string>, q: seq<string>)
    ensures Text(p + q) == Text(p) + Text(q)
  {
    if p == [] {
      assert [] + q == q;
    } else {
      assert (p + q)[1..] == p[1..] + q;
      TextConcat(p[1..], q);
    }
  }

  function LastParents(previous: Path, items: seq<Item>): Path {
    if items == [] then previous else Parents(items[|items| - 1].path)
  }

  lemma {:induction false} LinesAppend(previous: Path, items: seq<Item>, item: Item)
    ensures AllLines(previous, items + [item]) ==
            AllLines(previous, items) + ItemLines(LastParents(previous, items), item)
    decreases |items|
  {
    if items == [] {
      assert ([] + [item])[1..] == [];
      assert AllLines(Parents(item.path), []) == [];
    } else {
      var first, rest := items[0], items[1..];
      assert items + [item] == [first] + (rest + [item]) && items == [first] + rest;
      LinesAppend(Parents(first.path), rest, item);
      FirstLines(previous, first, rest);
      FirstLines(previous, first, rest + [item]);
      Associative(ItemLines(previous, first), AllLines(Parents(first.path), rest),
                  ItemLines(LastParents(previous, items), item));
    }
  }

  lemma FirstLines(previous: Path, first: Item, rest: seq<Item>)
    ensures AllLines(previous, [first] + rest) == ItemLines(previous, first) + AllLines(Parents(first.path), rest)
    ensures LastParents(previous, [first] + rest) == LastParents(Parents(first.path), rest)
  {
    assert ([first] + rest)[1..] == rest;
  }

  lemma Associative<T>(a: seq<T>, b: seq<T>, c: seq<T>)
    ensures a + b + c == a + (b + c)
  {
  }

  lemma {:induction false} HeadersAppend(depth: nat, parents: Path, n: nat)
    requires depth <= n < |parents|
    ensures Headers(depth, parents[..n + 1]) == Headers(depth, parents[..n]) + [HeaderLine(n, parents[n])]
    decreases n - depth
  {
    if depth < n {
      HeadersAppend(depth + 1, parents, n);
    } else {
      assert Headers(n + 1, parents[..n + 1]) == [];
    }
  }

  lemma ItemText(previous: Path, item: Item)
    requires item.path != [] && item.rendered.Some?
    ensures var parents := Parents(item.path);
            Text(ItemLines(previous, item)) ==
            Text(Headers(Shared(previous, parents), parents))
            + SettingLine(|parents|, item.path[|item.path| - 1], item.rendered.value) + "\n"
  {
    var parents := Parents(item.path);
    var line := SettingLine(|parents|, item.path[|item.path| - 1], item.rendered.value);
    TextConcat(Headers(Shared(previous, parents), parents), [line]);
    OneLine(line);
  }

  /** The text of one more setting. */
  lemma TextAppend(items: seq<Item>, i: nat)
    requires i < |items| && Printable(items[..i]) && items[i].path != [] && items[i].rendered.Some?
    ensures Printable(items[..i + 1])
    ensures Text(AllLines([], items[..i + 1])) ==
            Text(AllLines([], items[..i])) + Text(ItemLines(LastParents([], items[..i]), items[i]))
  {
    assert items[..i + 1] == items[..i] + [items[i]];
    LinesAppend([], items[..i], items[i]);
    TextConcat(AllLines([], items[..i]), ItemLines(LastParents([], items[..i]), items[i]));
  }

  method WriteHeaders(dst: string, shared: nat, parents: Path) returns (longer: string)
    requires shared <= |parents|
    ensures longer == dst + Text(Headers(shared, parents))
  {
    longer := dst;
    for depth := shared to |parents|
      invariant longer == dst + Text(Headers(shared, parents[..depth]))
    {
      HeadersAppend(shared, parents, depth);
      TextConcat(Headers(shared, parents[..depth]), [HeaderLine(depth, parents[depth])]);
      OneLine(HeaderLine(depth, parents[depth]));
      longer := longer + (Indent(depth) + parents[depth] + ":" + "\n");
    }
    assert parents[..|parents|] == parents;
  }

  /** One turn of the loop over the settings. */
  method WriteSetting(dst: string, previous: Path, item: Item) returns (longer: string, ok: bool)
    requires item.path != []
    ensures ok <==> item.rendered.Some?
    ensures ok ==> longer == dst + Text(ItemLines(previous, item))
    ensures !ok ==> longer == dst + Text(Headers(Shared(previous, Parents(item.path)), Parents(item.path)))
  {
    var parents := item.path[..|item.path| - 1];
    var shared := CommonPrefix(previous, parents);
    SharedIff(previous, parents, shared);
    longer := WriteHeaders(dst, shared, parents);
    ok := item.rendered.Some?;
    if ok {
      ItemText(previous, item);
      longer := longer + (SettingLine(|parents|, item.path[|item.path| - 1], item.rendered.value) + "\n");
    }
  }

  /** What is left behind when setting k cannot be rendered: the settings before it and
      the headers it was to stand under. */
  ghost predicate StoppedAt(dst: string, items: seq<Item>, k: nat) {
    && k < |items| && Printable(items[..k]) && items[k].rendered.None?
    && dst == Text(AllLines([], items[..k]))
              + (var parents := Parents(items[k].path);
                 Text(Headers(Shared(LastParents([], items[..k]), parents), parents)))
  }

  /** The settings up to the first that cannot be rendered. */
  method WriteConfig(items: seq<Item>) returns (dst: string, ok: bool)
    requires forall i | 0 <= i < |items| :: items[i].path != []
    ensures ok <==> Printable(items)
    ensures ok ==> dst == Text(AllLines([], items))
    ensures !ok ==> exists k: nat :: StoppedAt(dst, items, k)
  {
    dst, ok := "", true;
    var previous: Path := [];
    for i := 0 to |items|
      invariant ok && Printable(items[..i]) && dst == Text(AllLines([], items[..i]))
      invariant previous == LastParents([], items[..i])
    {
      dst, ok := WriteSetting(dst, previous, items[i]);
      if !ok {
        assert StoppedAt(dst, items, i);
        return;
      }
      TextAppend(items, i);
      previous := items[i].path[..|items[i].path| - 1];
    }
    assert items[..|items|] == items;
  }

  lemma OneLine(line: string)
    ensures Text([line]) == line + "\n"
  {
    assert [line][1..] == [];
  }

  // ----- reading one printed line -----

  lemma {:induction false} SpacesOf(n: nat, rest: string)
    requires rest != [] && rest[0] != ' '
    ensures Yaml.Spaces(seq(n, _ => ' ') + rest) == n
  {
    var s := seq(n, _ => ' ') + rest;
    if n > 0 {
      SpacesOf(n - 1, rest);
      assert s[1..] == seq(n - 1, _ => ' ') + rest;
    } else {
      assert s == rest;
    }
  }

  lemma {:induction false} ColonOf(key: string, after: string)
    requires Lacks(':', key)
    ensures Yaml.Colon(key + ":" + after) == Some(|key|)
  {
    var s := key + ":" + after;
    if key != [] {
      ColonOf(key[1..], after);
      assert s[1..] == key[1..] + ":" + after;
    }
  }

  lemma PlainKey(key: string)
    requires Plain(key)
    ensures Lacks(':', key) && Lacks('\n', key) && key != "" && key[0] != ' '
  {
    assert key[0] in key;
  }

  lemma LineReadsBack(depth: nat, key: string, after: string)
    requires Plain(key)
    requires after == "" || (|after| > 1 && after[0] == ' ')
    ensures Yaml.ReadLine(Indent(depth) + key + ":" + after) ==
            Some(Yaml.Line(2 * depth, key, if after == "" then None else Some(after[1..])))
  {
    PlainKey(key);
    var rest := key + ":" + after;
    var s := Indent(depth) + key + ":" + after;
    assert s == Indent(depth) + rest;
    SpacesOf(2 * depth, rest);
    ColonOf(key, after);
    assert s[2 * depth..] == rest && rest[..|key|] == key && rest[|key| + 1..] == after;
  }

  lemma HeaderReadsBack(depth: nat, key: string)
    requires Plain(key)
    ensures Yaml.ReadLine(HeaderLine(depth, key)) == Some(Yaml.Line(2 * depth, key, None))
  {
    LineReadsBack(depth, key, "");
    assert HeaderLine(depth, key) + "" == HeaderLine(depth, key);
  }

  lemma SettingReadsBack(depth: nat, key: string, value: string)
    requires Plain(key) && value != ""
    ensures Yaml.ReadLine(SettingLine(depth, key, value)) == Some(Yaml.Line(2 * depth, key, Some(value)))
  {
    LineReadsBack(depth, key, " " + value);
    assert Indent(depth) + key + ":" + (" " + value) == SettingLine(depth, key, value);
  }

  // ----- feeding printed lines to the reader -----

  function Steps(n: nat): seq<nat> {
    seq(n, i requires 0 <= i => 2 * i)
  }

  /** The reader stands in the section keys, whose key has just been read if pending. */
  ghost predicate At(r: Yaml.Reader, keys: Path, pending: bool) {
    r.keys == keys && r.pending == pending && r.indents == Steps(if pending then |keys| else |keys| + 1)
  }

  lemma {:induction false} DedentTo(keys: Path, depth: nat)
    requires depth <= |keys|
    ensures Yaml.Dedent(Steps(|keys| + 1), keys, 2 * depth) == Some((Steps(depth + 1), keys[..depth]))
    decreases |keys|
  {
    var n := |keys|;
    if depth < n {
      assert Steps(n + 1)[..n] == Steps(n);
      DedentTo(keys[..n - 1], depth);
      assert keys[..n - 1][..depth] == keys[..depth];
    } else {
      assert keys[..n] == keys;
    }
  }

  lemma FeedOne(r: Yaml.Reader, keys: Path, pending: bool, depth: nat, key: string, value: Option<string>)
    requires At(r, keys, pending) && depth <= |keys| && (pending ==> depth == |keys|)
    requires keys[..depth] + [key] !in r.spelled
    ensures var path := keys[..depth] + [key];
            match Yaml.Feed(r, Yaml.Line(2 * depth, key, value))
            case None => false
            case Some(r') =>
              && r'.spelled == r.spelled + {path}
              && (value.None? ==> At(r', path, true) && r'.entries == r.entries)
              && (value.Some? ==>
                  At(r', keys[..depth], false) && r'.entries == r.entries + [(path, Yaml.Scalar(value.value))])
  {
    var settled := Yaml.Settle(r, 2 * depth);
    if pending {
      assert Steps(|keys|) + [2 * depth] == Steps(|keys| + 1);
    }
    assert settled == r.(indents := Steps(|keys| + 1), pending := false);
    DedentTo(keys, depth);
  }

  /** The reader is ready for keys under parents from this depth on. */
  ghost predicate Ready(r: Yaml.Reader, keys: Path, pending: bool, parents: Path, depth: nat) {
    && At(r, keys, pending) && depth <= |keys| && depth <= |parents| && keys[..depth] == parents[..depth]
    && (pending ==> depth == |keys|)
  }

  lemma {:induction false} FeedHeaders(r: Yaml.Reader, keys: Path, pending: bool, parents: Path, depth: nat)
    returns (r': Yaml.Reader, keys': Path, pending': bool)
    requires Ready(r, keys, pending, parents, depth)
    requires forall n | n in parents :: Plain(n)
    requires forall n | depth < n <= |parents| :: parents[..n] !in r.spelled
    ensures Yaml.FeedAll(r, Headers(depth, parents)) == Some(r')
    ensures Ready(r', keys', pending', parents, |parents|) && r'.entries == r.entries
    ensures forall p | p in r'.spelled :: p in r.spelled || p <= parents
    decreases |parents| - depth
  {
    if depth == |parents| {
      r', keys', pending' := r, keys, pending;
    } else {
      var key := parents[depth];
      assert parents[..depth + 1] == keys[..depth] + [key];
      HeaderReadsBack(depth, key);
      FeedOne(r, keys, pending, depth, key, None);
      var next := Yaml.Feed(r, Yaml.Line(2 * depth, key, None)).value;
      forall n | depth + 1 < n <= |parents|
        ensures parents[..n] !in next.spelled
      {
        assert |parents[..n]| == n && |parents[..depth + 1]| == depth + 1;
      }
      r', keys', pending' := FeedHeaders(next, parents[..depth + 1], true, parents, depth + 1);
      assert Headers(depth, parents)[1..] == Headers(depth + 1, parents);
      assert parents[..depth + 1] <= parents;
    }
  }

  function ItemPaths(items: seq<Item>): seq<Path> {
    seq(|items|, i requires 0 <= i < |items| => items[i].path)
  }

  /** What the printed settings should read back as. */
  function Entries(items: seq<Item>): (entries: seq<(Path, Yaml.Value)>)
    ensures |entries| == |items|
  {
    seq(|items|, i requires 0 <= i < |items| =>
      (items[i].path, if items[i].rendered.Some? then Yaml.Scalar(items[i].rendered.value) else Yaml.Null))
  }

  /** Settings as walkFields and renderValue supply them: a grouped list of paths of
      plain names, each with a value on one line. */
  ghost predicate WellFormed(items: seq<Item>) {
    && Printable(items)
    && Grouped(ItemPaths(items))
    && (forall i | 0 <= i < |items| :: (forall n | n in items[i].path :: Plain(n))
                                         && items[i].rendered.value != "" && Lacks('\n', items[i].rendered.value))
  }

  function Previous(items: seq<Item>, i: nat): Path
    requires i <= |items|
  {
    if i == 0 then [] else Parents(items[i - 1].path)
  }

  /** The reader after the first i settings. */
  ghost predicate Reached(r: Yaml.Reader, items: seq<Item>, i: nat)
    requires i <= |items|
  {
    && At(r, Previous(items, i), i == 0)
    && (forall p | p in r.spelled :: exists j :: 0 <= j < i && p <= items[j].path)
  }

  /** A path and the setting after next share no more than the one between does. */
  lemma SharedWithPrevious(paths: seq<Path>, j: nat, i: nat, n: nat)
    requires Grouped(paths) && j < i < |paths| && Agree(paths[j], paths[i], n) && n > 0
    ensures n < |paths[i - 1]| && n < |paths[i]| && Agree(paths[i - 1], paths[i], n)
  {
    if j < i - 1 {
      assert Agree(paths[i - 1], paths[i], n);
    }
    assert !(paths[i] <= paths[i - 1]) && !(paths[i - 1] <= paths[i]);
  }

  /** No section that the next setting opens has been open before. */
  lemma NotSpelled(r: Yaml.Reader, items: seq<Item>, i: nat, n: nat)
    requires Grouped(ItemPaths(items)) && i < |items| && Reached(r, items, i)
    requires Shared(Previous(items, i), Parents(items[i].path)) < n <= |items[i].path|
    ensures items[i].path[..n] !in r.spelled
  {
    var path, q := items[i].path, items[i].path[..n];
    if q in r.spelled {
      var j :| 0 <= j < i && q <= items[j].path;
      var paths := ItemPaths(items);
      assert items[j].path[..n] == q && Agree(paths[j], paths[i], n);
      SharedWithPrevious(paths, j, i, n);
      var previous := Previous(items, i);
      assert previous[..n] == items[i - 1].path[..n] && Parents(path)[..n] == q;
      assert Agree(previous, Parents(path), n);
      SharedIff(previous, Parents(path), n);
      assert false;
    }
  }

  lemma OpenSections(r: Yaml.Reader, items: seq<Item>, i: nat) returns (inside: Yaml.Reader, keys: Path, pending: bool)
    requires WellFormed(items) && i < |items| && Reached(r, items, i)
    ensures var parents := Parents(items[i].path);
            && Yaml.FeedAll(r, Headers(Shared(Previous(items, i), parents), parents)) == Some(inside)
            && Ready(inside, keys, pending, parents, |parents|)
            && inside.entries == r.entries && items[i].path !in inside.spelled
            && (forall p | p in inside.spelled :: p in r.spelled || p <= items[i].path)
  {
    var previous, path := Previous(items, i), items[i].path;
    var parents := Parents(path);
    var shared := Shared(previous, parents);
    SharedIff(previous, parents, shared);
    forall n | shared < n <= |parents|
      ensures parents[..n] !in r.spelled
    {
      NotSpelled(r, items, i, n);
      assert parents[..n] == path[..n];
    }
    inside, keys, pending := FeedHeaders(r, previous, i == 0, parents, shared);
    NotSpelled(r, items, i, |path|);
    assert path[..|path|] == path && parents <= path;
  }

  lemma FeedSetting(inside: Yaml.Reader, keys: Path, pending: bool, path: Path, value: string) returns (r': Yaml.Reader)
    requires path != [] && Plain(path[|path| - 1]) && value != "" && path !in inside.spelled
    requires Ready(inside, keys, pending, Parents(path), |path| - 1)
    ensures Yaml.FeedAll(inside, [SettingLine(|path| - 1, path[|path| - 1], value)]) == Some(r')
    ensures At(r', Parents(path), false) && r'.entries == inside.entries + [(path, Yaml.Scalar(value))]
    ensures r'.spelled == inside.spelled + {path}
  {
    var depth, key := |path| - 1, path[|path| - 1];
    assert path == keys[..depth] + [key];
    SettingReadsBack(depth, key, value);
    FeedOne(inside, keys, pending, depth, key, Some(value));
    r' := Yaml.Feed(inside, Yaml.Line(2 * depth, key, Some(value))).value;
    assert [SettingLine(depth, key, value)][1..] == [];
  }

  lemma FeedItem(r: Yaml.Reader, items: seq<Item>, i: nat) returns (r': Yaml.Reader)
    requires WellFormed(items) && i < |items| && Reached(r, items, i)
    ensures Yaml.FeedAll(r, ItemLines(Previous(items, i), items[i])) == Some(r') && Reached(r', items, i + 1)
    ensures r'.entries == r.entries + [Entries(items)[i]]
  {
    var inside, keys, pending := OpenSections(r, items, i);
    r' := FeedInside(r, Previous(items, i), items[i], inside, keys, pending);
    SpelledSoFar(r.spelled, r'.spelled, items, i);
  }

  lemma FeedInside(r: Yaml.Reader, previous: Path, item: Item, inside: Yaml.Reader, keys: Path, pending: bool)
    returns (r': Yaml.Reader)
    requires item.path != [] && Plain(item.path[|item.path| - 1]) && item.path !in inside.spelled
    requires item.rendered.Some? && item.rendered.value != ""
    requires var parents := Parents(item.path);
             && Yaml.FeedAll(r, Headers(Shared(previous, parents), parents)) == Some(inside)
             && Ready(inside, keys, pending, parents, |parents|)
    ensures Yaml.FeedAll(r, ItemLines(previous, item)) == Some(r') && At(r', Parents(item.path), false)
    ensures r'.entries == inside.entries + [(item.path, Yaml.Scalar(item.rendered.value))]
    ensures r'.spelled == inside.spelled + {item.path}
  {
    var path, value, parents := item.path, item.rendered.value, Parents(item.path);
    r' := FeedSetting(inside, keys, pending, path, value);
    Yaml.FeedConcat(r, Headers(Shared(previous, parents), parents), [SettingLine(|parents|, path[|path| - 1], value)]);
  }

  lemma SpelledSoFar(before: set<Path>, after: set<Path>, items: seq<Item>, i: nat)
    requires i < |items|
    requires forall p | p in before :: exists j :: 0 <= j < i && p <= items[j].path
    requires forall p | p in after :: p in before || p <= items[i].path
    ensures forall p | p in after :: exists j :: 0 <= j < i + 1 && p <= items[j].path
  {
    forall p | p in after
      ensures exists j :: 0 <= j < i + 1 && p <= items[j].path
    {
      if p in before {
        var j :| 0 <= j < i && p <= items[j].path;
        assert j < i + 1;
      }
    }
  }

  lemma LinesFrom(items: seq<Item>, i: nat)
    requires i < |items|
    ensures AllLines(Previous(items, i), items[i..]) ==
            ItemLines(Previous(items, i), items[i]) + AllLines(Previous(items, i + 1), items[i + 1..])
  {
    assert items[i..][1..] == items[i + 1..] && items[i..][0] == items[i];
  }

  /** What reading the lines from item i on comes to. */
  ghost function FedFrom(r: Yaml.Reader, items: seq<Item>, i: nat): Option<Yaml.Reader>
    requires i <= |items|
  {
    Yaml.FeedAll(r, AllLines(Previous(items, i), items[i..]))
  }

  /** The reader has taken in the first i items. */
  ghost predicate InStep(r: Yaml.Reader, items: seq<Item>, i: nat)
    requires i <= |items|
  {
    Reached(r, items, i) && r.entries == Entries(items)[..i]
  }

  lemma OneMoreEntry<T>(entries: seq<T>, i: nat)
    requires i < |entries|
    ensures entries[..i + 1] == entries[..i] + [entries[i]]
  {
  }

  lemma FeedNext(r: Yaml.Reader, items: seq<Item>, i: nat) returns (next: Yaml.Reader)
    requires WellFormed(items) && i < |items| && InStep(r, items, i)
    ensures InStep(next, items, i + 1) && FedFrom(r, items, i) == FedFrom(next, items, i + 1)
  {
    next := FeedItem(r, items, i);
    OneMoreEntry(Entries(items), i);
    FedOn(r, items, i, next);
  }

  lemma FedOn(r: Yaml.Reader, items: seq<Item>, i: nat, next: Yaml.Reader)
    requires i < |items| && Yaml.FeedAll(r, ItemLines(Previous(items, i), items[i])) == Some(next)
    ensures FedFrom(r, items, i) == FedFrom(next, items, i + 1)
  {
    LinesFrom(items, i);
    Yaml.FeedConcat(r, ItemLines(Previous(items, i), items[i]), AllLines(Previous(items, i + 1), items[i + 1..]));
  }

  ghost predicate ReadsAll(fed: Option<Yaml.Reader>, items: seq<Item>) {
    fed.Some? && Yaml.Settle(fed.value, -1).entries == Entries(items)
  }

  lemma {:induction false} FeedFrom(r: Yaml.Reader, items: seq<Item>, i: nat)
    requires WellFormed(items) && i <= |items| && InStep(r, items, i)
    ensures ReadsAll(FedFrom(r, items, i), items)
    decreases |items| - i
  {
    if i == |items| {
      FeedDone(r, items);
    } else {
      var next := FeedNext(r, items, i);
      FeedFrom(next, items, i + 1);
    }
  }

  lemma FeedDone(r: Yaml.Reader, items: seq<Item>)
    requires InStep(r, items, |items|)
    ensures ReadsAll(FedFrom(r, items, |items|), items)
  {
    assert items[|items|..] == [] && Entries(items)[..|items|] == Entries(items);
  }

  // ----- the whole text -----

  lemma {:induction false} TextLines(lines: seq<string>)
    requires forall i | 0 <= i < |lines| :: Lacks('\n', lines[i])
    ensures Split('\n', Text(lines)) == lines + [""]
  {
    if lines != [] {
      TextLines(lines[1..]);
      SplitAt('\n', lines[0], Text(lines[1..]));
      SplitWhole('\n', lines[0]);
      assert lines[0] + "\n" + Text(lines[1..]) == Text(lines);
      assert lines == [lines[0]] + lines[1..];
    }
  }

  lemma {:induction false} HeadersHaveNoBreak(depth: nat, parents: Path)
    requires forall n | n in parents :: Plain(n)
    ensures forall l | l in Headers(depth, parents) :: Lacks('\n', l)
    decreases |parents| - depth
  {
    if depth < |parents| {
      PlainKey(parents[depth]);
      HeadersHaveNoBreak(depth + 1, parents);
    }
  }

  lemma ItemHasNoBreak(previous: Path, item: Item)
    requires forall n | n in item.path :: Plain(n)
    requires item.rendered.Some? ==> Lacks('\n', item.rendered.value)
    ensures forall l | l in ItemLines(previous, item) :: Lacks('\n', l)
  {
    if item.path != [] && item.rendered.Some? {
      var parents, key := Parents(item.path), item.path[|item.path| - 1];
      PlainKey(key);
      HeadersHaveNoBreak(Shared(previous, parents), parents);
    }
  }

  lemma {:induction false} LinesHaveNoBreak(previous: Path, items: seq<Item>)
    requires forall i | 0 <= i < |items| ::
               (forall n | n in items[i].path :: Plain(n)) &&
                 (items[i].rendered.Some? ==> Lacks('\n', items[i].rendered.value))
    ensures forall l | l in AllLines(previous, items) :: Lacks('\n', l)
    decreases |items|
  {
    if items != [] {
      ItemHasNoBreak(previous, items[0]);
      LinesHaveNoBreak(Parents(items[0].path), items[1..]);
    }
  }

  lemma ReadText(lines: seq<string>)
    requires forall i | 0 <= i < |lines| :: Lacks('\n', lines[i])
    ensures Yaml.Read(Text(lines)) ==
            match Yaml.FeedAll(Yaml.Start(), lines) case None => None case Some(r) => Some(Yaml.Settle(r, -1).entries)
  {
    TextLines(lines);
    assert (lines + [""])[..|lines|] == lines;
  }

  /** A grouped list of settings, printed and read as YAML, gives back exactly its
      paths and values in order; and since the reader refuses a key spelled twice,
      each section header was printed once. */
  lemma PrintedReadsBack(items: seq<Item>)
    requires WellFormed(items)
    ensures Yaml.Read(Text(AllLines([], items))) == Some(Entries(items))
  {
    assert At(Yaml.Start(), [], true);
    FeedFrom(Yaml.Start(), items, 0);
    assert items[0..] == items;
    LinesHaveNoBreak([], items);
    ReadText(AllLines([], items));
  }

  /** And so for any selection of the settings of a type whose sections name their
      fields apart, in declaration order. */
  lemma SelectionReadsBack(typ: seq<Field>, leaves: seq<Leaf>, chosen: seq<nat>, values: seq<string>, items: seq<Item>)
    requires WellNamed(typ) && Walk(typ, 0, [], "", []) == Leaves(leaves)
    requires forall i | 0 <= i < |chosen| :: chosen[i] < |leaves|
    requires forall i, k | 0 <= i < k < |chosen| :: chosen[i] < chosen[k]
    requires |values| == |chosen| == |items|
    requires forall i | 0 <= i < |values| :: values[i] != "" && Lacks('\n', values[i])
    requires forall i | 0 <= i < |items| :: items[i] == Item(leaves[chosen[i]].yamlPath, Some(values[i]))
    ensures Printable(items) && Yaml.Read(Text(AllLines([], items))) == Some(Entries(items))
  {
    SelectionIsWellFormed(typ, leaves, chosen, values, items);
    PrintedReadsBack(items);
  }

  lemma SelectionIsWellFormed(typ: seq<Field>, leaves: seq<Leaf>, chosen: seq<nat>, values: seq<string>,
                              items: seq<Item>)
    requires WellNamed(typ) && Walk(typ, 0, [], "", []) == Leaves(leaves)
    requires forall i | 0 <= i < |chosen| :: chosen[i] < |leaves|
    requires forall i, k | 0 <= i < k < |chosen| :: chosen[i] < chosen[k]
    requires |values| == |chosen| == |items|
    requires forall i | 0 <= i < |values| :: values[i] != "" && Lacks('\n', values[i])
    requires forall i | 0 <= i < |items| :: items[i] == Item(leaves[chosen[i]].yamlPath, Some(values[i]))
    ensures WellFormed(items)
  {
    LeavesAreGrouped(typ);
    SublistIsGrouped(Paths(leaves), chosen);
    assert forall i | 0 <= i < |leaves| :: Paths(leaves)[i] == leaves[i].yamlPath;
    assert ItemPaths(items) == seq(|chosen|, i requires 0 <= i < |chosen| => Paths(leaves)[chosen[i]]);
    forall i | 0 <= i < |items|
      ensures items[i].path != [] && forall n | n in items[i].path :: Plain(n)
    {
      assert items[i].path == Paths(leaves)[chosen[i]];
    }
  }
}
