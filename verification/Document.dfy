/** A parsed configuration file: mappings keep their keys in order, with the line of
    each (gopkg.in/yaml.v3 nodes, anchors resolved away). */
module Document {
  import opened Strings

  type Path = seq<string>

  datatype Node = Scalar(text: string) | Mapping(entries: seq<Entry>)

  datatype Entry = Entry(key: string, line: nat, value: Node)

  datatype Severity = Error | Warning

  /** path is printed with dots between its keys. */
  datatype Diagnostic = Diagnostic(severity: Severity, path: Path, line: nat)

  /** YAML's merge key. */
  const MERGE_KEY := "<<"

  /** What a key is called in tables and messages. */
  function Name(path: Path): string {
    Joined('.', path)
  }

  function EntriesOf(node: Node): seq<Entry> {
    if node.Mapping? then node.entries else []
  }

  function KeySet(entries: seq<Entry>): set<string> {
    set i | 0 <= i < |entries| :: entries[i].key
  }

  lemma OneKey(entry: Entry)
    ensures KeySet([entry]) == {entry.key}
  {
    assert [entry][0].key in KeySet([entry]);
  }

  ghost predicate DistinctKeys(entries: seq<Entry>) {
    forall i, k | 0 <= i < k < |entries| :: entries[i].key != entries[k].key
  }

  /** No mapping spells a key twice. */
  ghost predicate WellFormed(entries: seq<Entry>) {
    DistinctKeys(entries) &&
    forall i | 0 <= i < |entries| && entries[i].value.Mapping? :: WellFormed(entries[i].value.entries)
  }

  /** The keys on the way down p are there; merge keys lead nowhere. */
  ghost predicate HasPath(entries: seq<Entry>, p: Path)
    decreases |p|
  {
    p != [] && p[0] != MERGE_KEY &&
    exists i | 0 <= i < |entries| :: entries[i].key == p[0] &&
      (|p| > 1 ==> HasPath(EntriesOf(entries[i].value), p[1..]))
  }

  lemma PathInTail(entries: seq<Entry>, p: Path)
    requires entries != [] && p != []
    ensures HasPath(entries, p) <==> HeadHas(entries[0], p) || HasPath(entries[1..], p)
  {
    var rest := entries[1..];
    if HasPath(entries, p) && !HeadHas(entries[0], p) {
      var i :| 0 <= i < |entries| && entries[i].key == p[0] &&
        (|p| > 1 ==> HasPath(EntriesOf(entries[i].value), p[1..]));
      assert rest[i - 1] == entries[i];
    }
    if HasPath(rest, p) {
      var i :| 0 <= i < |rest| && rest[i].key == p[0] && (|p| > 1 ==> HasPath(EntriesOf(rest[i].value), p[1..]));
      assert entries[i + 1] == rest[i];
    }
  }

  ghost predicate HeadHas(entry: Entry, p: Path) {
    p != [] && p[0] != MERGE_KEY && entry.key == p[0] && (|p| > 1 ==> HasPath(EntriesOf(entry.value), p[1..]))
  }

  /** name is that key or lies beneath it. */
  predicate Under(name: string, key: string) {
    name == key || HasPrefix(name, key + ".")
  }

  lemma NameIsUnder(p: Path, q: Path)
    requires p != []
    ensures Under(Name(p + q), Name(p))
  {
    if q == [] {
      assert p + q == p;
    } else {
      JoinedConcat('.', p, q);
      assert Name(p + q)[..|Name(p)| + 1] == Name(p) + ".";
    }
  }

  /** The last key of p stands on that line. */
  ghost predicate OnLine(entries: seq<Entry>, p: Path, line: nat)
    decreases |p|
  {
    p != [] && p[0] != MERGE_KEY && exists i | 0 <= i < |entries| :: LineAt(entries[i], p, line)
  }

  ghost predicate LineAt(entry: Entry, p: Path, line: nat)
    requires p != []
    decreases |p|, 0
  {
    entry.key == p[0] && if |p| == 1 then entry.line == line else OnLine(EntriesOf(entry.value), p[1..], line)
  }

  lemma LineInTail(entries: seq<Entry>, p: Path, line: nat)
    requires entries != [] && OnLine(entries[1..], p, line)
    ensures OnLine(entries, p, line)
  {
    var i :| 0 <= i < |entries[1..]| && LineAt(entries[1..][i], p, line);
    assert entries[i + 1] == entries[1..][i];
  }

  /** A diagnostic beneath path is about one key of the mapping, or about one beneath it. */
  lemma PathBelow(path: Path, key: string, p: Path)
    requires path + [key] <= p
    ensures p[|path|..] == [key] + p[|path| + 1..]
  {
    assert p[|path|] == (path + [key])[|path|];
  }

  /** Every diagnostic names the line of the key it is about. */
  ghost predicate OnTheirLines(found: seq<Diagnostic>, path: Path, entries: seq<Entry>) {
    forall d | d in found :: |d.path| > |path| && d.path[..|path|] == path && OnLine(entries, d.path[|path|..], d.line)
  }

  lemma LinesBelow(found: seq<Diagnostic>, path: Path, entry: Entry)
    requires entry.key != MERGE_KEY && entry.value.Mapping?
    requires OnTheirLines(found, path + [entry.key], entry.value.entries)
    ensures OnTheirLines(found, path, [entry])
  {
    forall d | d in found
      ensures d.path[..|path|] == path && OnLine([entry], d.path[|path|..], d.line)
    {
      assert d.path[..|path|] == d.path[..|path| + 1][..|path|];
      PathBelow(path, entry.key, d.path);
      assert d.path[|path|..][1..] == d.path[|path| + 1..];
      assert LineAt([entry][0], d.path[|path|..], d.line);
    }
  }

  lemma LineOfKey(path: Path, entry: Entry, severity: Severity)
    requires entry.key != MERGE_KEY
    ensures OnTheirLines([Diagnostic(severity, path + [entry.key], entry.line)], path, [entry])
  {
    assert (path + [entry.key])[|path|..] == [entry.key];
    assert LineAt([entry][0], [entry.key], entry.line);
  }

  lemma LinesOfAll(first: seq<Diagnostic>, rest: seq<Diagnostic>, path: Path, entries: seq<Entry>)
    requires entries != [] && OnTheirLines(first, path, [entries[0]]) && OnTheirLines(rest, path, entries[1..])
    ensures OnTheirLines(first + rest, path, entries)
  {
    forall d | d in first + rest
      ensures OnLine(entries, d.path[|path|..], d.line)
    {
      var p := d.path[|path|..];
      if d in first {
        assert LineAt([entries[0]][0], p, d.line);
        assert LineAt(entries[0], p, d.line);
      } else {
        LineInTail(entries, p, d.line);
      }
    }
  }

  lemma TailKeys(entries: seq<Entry>)
    requires entries != []
    ensures KeySet(entries) == {entries[0].key} + KeySet(entries[1..])
    ensures WellFormed(entries) ==> WellFormed(entries[1..]) && entries[0].key !in KeySet(entries[1..])
  {
    assert entries == [entries[0]] + entries[1..];
    forall i | 0 <= i < |entries|
      ensures entries[i].key in {entries[0].key} + KeySet(entries[1..])
    {
      if i > 0 {
        assert entries[1..][i - 1] == entries[i];
      }
    }
  }

  // ----- lists of diagnostics -----

  ghost predicate Reports(found: seq<Diagnostic>, p: Path) {
    exists d :: d in found && d.path == p
  }

  ghost predicate HasErrors(found: seq<Diagnostic>) {
    exists d :: d in found && d.severity.Error?
  }

  /** Every diagnostic is about a key of this mapping, or beneath one. */
  ghost predicate AboutKeys(found: seq<Diagnostic>, path: Path, keys: set<string>) {
    forall d | d in found :: |d.path| > |path| && d.path[..|path|] == path && d.path[|path|] in keys
  }

  lemma ReportsEither(a: seq<Diagnostic>, b: seq<Diagnostic>, p: Path)
    ensures Reports(a + b, p) <==> Reports(a, p) || Reports(b, p)
  {
    if Reports(a, p) {
      var d :| d in a && d.path == p;
      assert d in a + b;
    }
    if Reports(b, p) {
      var d :| d in b && d.path == p;
      assert d in a + b;
    }
  }

  /** No key is reported twice. */
  ghost predicate DistinctPaths(found: seq<Diagnostic>) {
    forall i, k | 0 <= i < k < |found| :: found[i].path != found[k].path
  }

  lemma ApartFrom(a: seq<Diagnostic>, b: seq<Diagnostic>, path: Path, keys: set<string>, others: set<string>)
    requires AboutKeys(a, path, keys) && AboutKeys(b, path, others) && keys !! others
    requires DistinctPaths(a) && DistinctPaths(b)
    ensures DistinctPaths(a + b)
  {
    forall i, k | 0 <= i < |a| && 0 <= k < |b|
      ensures a[i].path != b[k].path
    {
      assert a[i] in a && b[k] in b;
    }
  }
}
