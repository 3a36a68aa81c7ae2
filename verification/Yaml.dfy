/** A reader of nested block mappings, section 8.2.2 of YAML 1.2.2: the keys of one
    mapping share an indentation, a nested mapping is indented further, and no
    mapping holds a key twice.  Keys are plain scalars that end at a colon; the text
    after the colon and a space is the value, whatever it is. */
module Yaml {
  import opened Strings

  type Path = seq<string>

  datatype Value = Scalar(text: string) | Null

  datatype Line = Line(indent: nat, key: string, value: Option<string>)

  function Spaces(s: string): nat {
    if s != [] && s[0] == ' ' then 1 + Spaces(s[1..]) else 0
  }

  /** Where the key ends. */
  function Colon(s: string): Option<nat> {
    if s == [] then None
    else if s[0] == ':' then Some(0)
    else match Colon(s[1..])
      case None => None
      case Some(i) => Some(i + 1)
  }

  lemma {:induction false} ColonAt(s: string)
    ensures Colon(s).Some? ==> Colon(s).value < |s|
    ensures Spaces(s) <= |s|
  {
    if s != [] {
      ColonAt(s[1..]);
    }
  }

  function ReadLine(s: string): Option<Line> {
    ColonAt(s);
    var rest := s[Spaces(s)..];
    ColonAt(rest);
    match Colon(rest)
    case None => None
    case Some(i) =>
      var key, after := rest[..i], rest[i + 1..];
      if key == "" then None
      else if after == "" then Some(Line(Spaces(s), key, None))
      else if |after| > 1 && after[0] == ' ' then Some(Line(Spaces(s), key, Some(after[1..])))
      else None
  }

  /** What has been read: the open sections with the indentation of each open
      mapping's keys, whether a section key still waits for what it holds, every path
      a key has spelled, and the settings so far. */
  datatype Reader = Reader(indents: seq<nat>, keys: Path, pending: bool, spelled: set<Path>,
                           entries: seq<(Path, Value)>)

  function Start(): Reader {
    Reader([], [], true, {}, [])
  }

  function Last(indents: seq<nat>): int {
    if indents == [] then -1 else indents[|indents| - 1]
  }

  /** A waiting section gets a mapping when the line is indented further than its
      key, and holds nothing otherwise. */
  function Settle(r: Reader, indent: int): Reader {
    if !r.pending then r
    else if indent > Last(r.indents) then r.(indents := r.indents + [indent], pending := false)
    else if r.keys == [] then r.(pending := false)
    else r.(keys := r.keys[..|r.keys| - 1], pending := false, entries := r.entries + [(r.keys, Null)])
  }

  /** Mappings indented further than the line are over. */
  function Dedent(indents: seq<nat>, keys: Path, indent: nat): Option<(seq<nat>, Path)> {
    if indents == [] || Last(indents) < indent then None
    else if Last(indents) == indent then Some((indents, keys))
    else if keys == [] then None
    else Dedent(indents[..|indents| - 1], keys[..|keys| - 1], indent)
  }

  function Feed(r: Reader, line: Line): Option<Reader> {
    var settled := Settle(r, line.indent);
    match Dedent(settled.indents, settled.keys, line.indent)
    case None => None
    case Some((indents, keys)) =>
      var path := keys + [line.key];
      if path in r.spelled then None
      else match line.value
        case None => Some(Reader(indents, path, true, r.spelled + {path}, settled.entries))
        case Some(text) => Some(Reader(indents, keys, false, r.spelled + {path},
                                       settled.entries + [(path, Scalar(text))]))
  }

  function FeedAll(r: Reader, lines: seq<string>): Option<Reader>
    decreases |lines|
  {
    if lines == [] then Some(r)
    else match ReadLine(lines[0])
      case None => None
      case Some(line) =>
        match Feed(r, line)
        case None => None
        case Some(r') => FeedAll(r', lines[1..])
  }

  /** The settings of a document, with their paths, in order; None when it is not a
      nest of block mappings with distinct keys. */
  function Read(text: string): Option<seq<(Path, Value)>> {
    var parts := Split('\n', text);
    var lines := if parts[|parts| - 1] == "" then parts[..|parts| - 1] else parts;
    match FeedAll(Start(), lines)
    case None => None
    case Some(r) => Some(Settle(r, -1).entries)
  }

  lemma {:induction false} FeedConcat(r: Reader, p: seq<string>, q: seq<string>)
    ensures FeedAll(r, p + q) == match FeedAll(r, p) case None => None case Some(r') => FeedAll(r', q)
    decreases |p|
  {
    if p == [] {
      assert [] + q == q;
    } else {
      assert (p + q)[1..] == p[1..] + q;
      var line := ReadLine(p[0]);
      if line.Some? && Feed(r, line.value).Some? {
        FeedConcat(Feed(r, line.value).value, p[1..], q);
      }
    }
  }
}
