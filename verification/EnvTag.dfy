/** Reading an `env` struct tag (internal/config/fields.go): a name, then options
    separated by commas, of which the default takes everything after it. */
module EnvTag {
  import opened Strings

  /** White space as strings.TrimSpace knows it. */
  predicate IsSpace(c: char) {
    || '\t' <= c <= '\r' || c == ' ' || c == '\U{85}' || c == '\U{A0}' || c == '\U{1680}'
    || '\U{2000}' <= c <= '\U{200A}' || c == '\U{2028}' || c == '\U{2029}' || c == '\U{202F}'
    || c == '\U{205F}' || c == '\U{3000}'
  }

  predicate IsBlank(c: char) {
    c == ' ' || c == '\t'
  }

  function TrimLeft(s: string, cut: char -> bool): string {
    if s != [] && cut(s[0]) then TrimLeft(s[1..], cut) else s
  }

  function TrimRight(s: string, cut: char -> bool): string {
    if s != [] && cut(s[|s| - 1]) then TrimRight(s[..|s| - 1], cut) else s
  }

  function TrimSpace(s: string): string {
    TrimRight(TrimLeft(s, IsSpace), IsSpace)
  }

  function TrimPrefix(s: string, prefix: string): string {
    if HasPrefix(s, prefix) then s[|prefix|..] else s
  }

  datatype EnvTag = EnvTag(key: string, prefix: string, def: string, hasDefault: bool)

  datatype Result = Ok(tag: EnvTag) | UnknownOption(option: string)

  const PREFIX := "prefix="
  const DEFAULT := "default="

  /** Options the environment library knows and this package ignores. */
  predicate Ignored(opt: string) {
    || opt in ["", "required", "noinit", "overwrite", "decodeunset"]
    || HasPrefix(opt, "delimiter=") || HasPrefix(opt, "separator=")
  }

  /** What the parts from index i on make of a tag read so far. */
  function Parse(parsed: EnvTag, parts: seq<string>): Result
    decreases |parts|
  {
    if parts == [] then Ok(parsed)
    else
      var opt := TrimLeft(parts[0], IsBlank);
      if HasPrefix(opt, PREFIX) then Parse(parsed.(prefix := TrimPrefix(opt, PREFIX)), parts[1..])
      else if HasPrefix(opt, DEFAULT) then
        Ok(parsed.(def := TrimPrefix(TrimLeft(Joined(',', parts), IsBlank), DEFAULT), hasDefault := true))
      else if Ignored(opt) then Parse(parsed, parts[1..])
      else UnknownOption(opt)
  }

  function Options(tag: string): seq<string> {
    Split(',', tag)[1..]
  }

  function Parsed(tag: string): Result {
    Parse(EnvTag(TrimSpace(Split(',', tag)[0]), "", "", false), Options(tag))
  }

  method ParseEnvTag(tag: string) returns (r: Result)
    ensures r == Parsed(tag)
  {
    var parts := Split(',', tag);
    var parsed := EnvTag(TrimSpace(parts[0]), "", "", false);
    for optNum := 1 to |parts|
      invariant Parse(parsed, parts[optNum..]) == Parsed(tag)
    {
      assert parts[optNum..][0] == parts[optNum] && parts[optNum..][1..] == parts[optNum + 1..];
      var opt := TrimLeft(parts[optNum], IsBlank);
      if HasPrefix(opt, PREFIX) {
        parsed := parsed.(prefix := TrimPrefix(opt, PREFIX));
      } else if HasPrefix(opt, DEFAULT) {
        var rest := TrimLeft(Joined(',', parts[optNum..]), IsBlank);
        parsed := parsed.(def := TrimPrefix(rest, DEFAULT), hasDefault := true);
        return Ok(parsed);
      } else if !Ignored(opt) {
        return UnknownOption(opt);
      }
    }
    return Ok(parsed);
  }

  // ----- writing a tag and reading it back -----

  predicate Blanks(s: string) {
    forall c | c in s :: c in " \t"
  }

  /** The tag with these parts; a gap may stand before each option. */
  function Print(key: string, gap: string, prefix: Option<string>, gap': string, def: Option<string>): string {
    key + (if prefix.Some? then "," + gap + "prefix=" + prefix.value else "")
    + (if def.Some? then "," + gap' + "default=" + def.value else "")
  }

  lemma {:induction false} TrimBlanks(gap: string, s: string)
    requires Blanks(gap) && s != [] && !IsBlank(s[0])
    ensures TrimLeft(gap + s, IsBlank) == s
  {
    if gap != [] {
      assert gap[0] in gap && (gap + s)[1..] == gap[1..] + s;
      TrimBlanks(gap[1..], s);
    } else {
      assert [] + s == s;
    }
  }

  /** Text without a comma stays in front of the first part. */
  lemma {:induction false} SplitAfter(text: string, s: string)
    requires Lacks(',', text)
    ensures Split(',', text + s) == [text + Split(',', s)[0]] + Split(',', s)[1..]
  {
    if text == [] {
      assert [] + s == s && [] + Split(',', s)[0] == Split(',', s)[0];
    } else {
      SplitAfter(text[1..], s);
      SplitStep(',', text[0], text[1..] + s);
      assert [text[0]] + (text[1..] + s) == text + s;
      assert [text[0]] + (text[1..] + Split(',', s)[0]) == text + Split(',', s)[0];
    }
  }

  lemma PrefixOf(text: string, more: string)
    ensures HasPrefix(text + more, text) && TrimPrefix(text + more, text) == more
  {
  }

  lemma DefaultIsNoPrefix(opt: string)
    requires HasPrefix(opt, DEFAULT)
    ensures !HasPrefix(opt, PREFIX)
  {
    assert opt[0] == opt[..8][0] == 'd';
  }

  lemma DefaultTakesTheRest(parsed: EnvTag, gap: string, def: string)
    requires Blanks(gap)
    ensures Parse(parsed, Split(',', gap + DEFAULT + def)) == Ok(parsed.(def := def, hasDefault := true))
  {
    var text := gap + DEFAULT;
    var parts := Split(',', text + def);
    assert Lacks(',', text);
    SplitAfter(text, def);
    JoinedSplit(',', text + def);
    var more := Split(',', def)[0];
    assert parts[0] == text + more;
    DefaultAfterGap(gap, more);
    DefaultAfterGap(gap, def);
  }

  lemma DefaultAfterGap(gap: string, more: string)
    requires Blanks(gap)
    ensures var opt := TrimLeft(gap + DEFAULT + more, IsBlank);
            !HasPrefix(opt, PREFIX) && HasPrefix(opt, DEFAULT) && TrimPrefix(opt, DEFAULT) == more
  {
    var opt := DEFAULT + more;
    assert gap + DEFAULT + more == gap + opt && opt[0] == 'd';
    TrimBlanks(gap, opt);
    PrefixOf(DEFAULT, more);
    DefaultIsNoPrefix(opt);
  }

  lemma PrefixOption(parsed: EnvTag, gap: string, prefix: string, rest: seq<string>)
    requires Blanks(gap) && Lacks(',', prefix)
    ensures Parse(parsed, Split(',', gap + PREFIX + prefix) + rest) == Parse(parsed.(prefix := prefix), rest)
  {
    var text := gap + PREFIX + prefix;
    assert forall c | c in text :: c != ',';
    SplitWhole(',', text);
    assert text == gap + (PREFIX + prefix);
    TrimBlanks(gap, PREFIX + prefix);
    assert ([text] + rest)[1..] == rest;
  }

  /** The options of a printed tag. */
  lemma PrintedOptions(key: string, gap: string, prefix: Option<string>, gap': string, def: Option<string>)
    requires Lacks(',', key)
    ensures Split(',', Print(key, gap, prefix, gap', def)) ==
            [key] + (if prefix.Some? then Split(',', gap + PREFIX + prefix.value) else [])
            + (if def.Some? then Split(',', gap' + DEFAULT + def.value) else [])
  {
    SplitWhole(',', key);
    var head := key;
    if prefix.Some? {
      head := key + "," + (gap + PREFIX + prefix.value);
      SplitAt(',', key, gap + PREFIX + prefix.value);
    }
    assert head == Print(key, gap, prefix, gap', None);
    if def.Some? {
      var last := gap' + DEFAULT + def.value;
      SplitAt(',', head, last);
      assert Print(key, gap, prefix, gap', def) == head + "," + last;
    } else {
      assert Split(',', head) + [] == Split(',', head);
    }
  }

  /** White space of the Latin-1 range. */
  predicate Spaces(s: string) {
    forall c | c in s :: c in " \t\n\U{B}\U{C}\r\U{85}\U{A0}"
  }

  predicate Trimmed(s: string) {
    s == "" || (!IsSpace(s[0]) && !IsSpace(s[|s| - 1]))
  }

  lemma {:induction false} TrimLeftSpaces(space: string, s: string)
    requires Spaces(space) && (s == "" || !IsSpace(s[0]))
    ensures TrimLeft(space + s, IsSpace) == s
  {
    if space != [] {
      assert space[0] in space && (space + s)[1..] == space[1..] + s;
      TrimLeftSpaces(space[1..], s);
    } else {
      assert space + s == s;
    }
  }

  lemma {:induction false} TrimRightSpaces(s: string, space: string)
    requires Spaces(space) && (s == "" || !IsSpace(s[|s| - 1]))
    ensures TrimRight(s + space, IsSpace) == s
  {
    if space != [] {
      var n := |space| - 1;
      assert space[n] in space && (s + space)[..|s + space| - 1] == s + space[..n];
      TrimRightSpaces(s, space[..n]);
    } else {
      assert s + space == s;
    }
  }

  lemma TrimBothEnds(before: string, s: string, after: string)
    requires Spaces(before) && Spaces(after) && Trimmed(s)
    ensures TrimSpace(before + s + after) == s
  {
    if s == "" {
      assert before + s + after == (before + after) + "";
      TrimLeftSpaces(before + after, "");
    } else {
      assert before + s + after == before + (s + after) && (s + after)[0] == s[0];
      TrimLeftSpaces(before, s + after);
      TrimRightSpaces(s, after);
    }
  }

  lemma KeyReadsBack(before: string, name: string, after: string)
    requires Spaces(before) && Spaces(after) && Trimmed(name) && Lacks(',', name)
    ensures TrimSpace(before + name + after) == name && Lacks(',', before + name + after)
  {
    TrimBothEnds(before, name, after);
    assert forall c | c in before + name + after :: c in before || c in name || c in after;
  }

  /** A tag reads back as the key, prefix and default it was written with, whatever
      white space surrounds the key and whatever commas, blanks or option-like text the
      default holds. */
  lemma PrintThenParse(before: string, name: string, after: string,
                       gap: string, prefix: Option<string>, gap': string, def: Option<string>)
    requires Spaces(before) && Spaces(after) && Trimmed(name) && Lacks(',', name)
    requires Blanks(gap) && Blanks(gap') && (prefix.Some? ==> Lacks(',', prefix.value))
    ensures Parsed(Print(before + name + after, gap, prefix, gap', def)) ==
            Ok(EnvTag(name, if prefix.Some? then prefix.value else "", if def.Some? then def.value else "", def.Some?))
  {
    var key := before + name + after;
    KeyReadsBack(before, name, after);
    PrintedOptions(key, gap, prefix, gap', def);
    var first := if prefix.Some? then Split(',', gap + PREFIX + prefix.value) else [];
    var last := if def.Some? then Split(',', gap' + DEFAULT + def.value) else [];
    assert ([key] + first + last)[1..] == first + last;
    var start := EnvTag(name, "", "", false);
    var tag := start.(prefix := if prefix.Some? then prefix.value else "");
    if prefix.Some? {
      PrefixOption(start, gap, prefix.value, last);
    } else {
      assert first + last == last;
    }
    if def.Some? {
      DefaultTakesTheRest(tag, gap', def.value);
    }
  }

  // ----- when a tag is refused -----

  /** An option of this kind, blanks in front of it aside. */
  predicate Starts(part: string, with: string) {
    HasPrefix(TrimLeft(part, IsBlank), with)
  }

  predicate IsDefault(part: string) {
    Starts(part, "default=")
  }

  predicate Recognised(part: string) {
    || TrimLeft(part, IsBlank) in {"", "required", "noinit", "overwrite", "decodeunset"}
    || Starts(part, "prefix=") || Starts(part, "default=") || Starts(part, "delimiter=") || Starts(part, "separator=")
  }

  /** Option i is not recognised, and no default before it has taken it in. */
  predicate RefusesAt(options: seq<string>, i: nat) {
    i < |options| && !Recognised(options[i]) && forall k | 0 <= k < i :: !IsDefault(options[k])
  }

  /** A tag is refused exactly when an option before any default is not recognised. */
  lemma RefusedIff(tag: string)
    ensures Parsed(tag).UnknownOption? <==> exists i: nat :: RefusesAt(Options(tag), i)
  {
    RefusedFrom(EnvTag(TrimSpace(Split(',', tag)[0]), "", "", false), Options(tag));
  }

  lemma {:induction false} RefusesLater(options: seq<string>, i: nat)
    requires options != [] && !IsDefault(options[0])
    ensures RefusesAt(options[1..], i) <==> RefusesAt(options, i + 1)
  {
    if RefusesAt(options[1..], i) {
      assert forall k | 1 <= k < i + 1 :: options[k] == options[1..][k - 1];
    }
    if RefusesAt(options, i + 1) {
      assert forall k | 0 <= k < i :: options[1..][k] == options[k + 1];
    }
  }

  lemma {:induction false} RefusedFrom(parsed: EnvTag, options: seq<string>)
    ensures Parse(parsed, options).UnknownOption? <==> exists i: nat :: RefusesAt(options, i)
    decreases |options|
  {
    if options == [] {
    } else if !Recognised(options[0]) {
      assert RefusesAt(options, 0);
    } else if IsDefault(options[0]) {
      DefaultIsNoPrefix(TrimLeft(options[0], IsBlank));
      assert forall i: nat | RefusesAt(options, i) :: i == 0;
    } else {
      var opt, rest := TrimLeft(options[0], IsBlank), options[1..];
      RefusedFrom(if HasPrefix(opt, PREFIX) then parsed.(prefix := TrimPrefix(opt, PREFIX)) else parsed, rest);
      if i: nat :| RefusesAt(rest, i) {
        RefusesLater(options, i);
      }
      if i: nat :| RefusesAt(options, i) {
        RefusesLater(options, i - 1);
      }
    }
  }

  // ----- what a tag says -----

  /** Option i is the last prefix among the first n. */
  predicate LastPrefix(options: seq<string>, n: nat, i: nat) {
    && i < n <= |options| && Starts(options[i], "prefix=")
    && forall k | i < k < n :: !Starts(options[k], "prefix=")
  }

  /** The default begins at option n, or there is none and n is the number of options. */
  predicate DefaultFrom(options: seq<string>, n: nat) {
    && n <= |options| && (forall k | 0 <= k < n :: !IsDefault(options[k]))
    && (n < |options| ==> IsDefault(options[n]))
  }

  /** What the options make of a tag read so far: the last prefix before the default counts,
      and the default is all that follows its name, commas included. */
  ghost predicate SaidBy(parsed: EnvTag, options: seq<string>, n: nat, tag: EnvTag)
    requires n <= |options|
  {
    && tag.key == parsed.key
    && (forall i: nat | LastPrefix(options, n, i) :: "prefix=" + tag.prefix == TrimLeft(options[i], IsBlank))
    && ((forall i | 0 <= i < n :: !Starts(options[i], "prefix=")) ==> tag.prefix == parsed.prefix)
    && if n < |options|
       then tag.hasDefault && "default=" + tag.def == TrimLeft(Joined(',', options[n..]), IsBlank)
       else tag.def == parsed.def && tag.hasDefault == parsed.hasDefault
  }

  lemma {:induction false} TrimLeftConcat(s: string, t: string, cut: char -> bool)
    requires TrimLeft(s, cut) != ""
    ensures TrimLeft(s + t, cut) == TrimLeft(s, cut) + t
  {
    if s != [] && cut(s[0]) {
      assert (s + t)[1..] == s[1..] + t;
      TrimLeftConcat(s[1..], t, cut);
    }
  }

  lemma JoinedStartsDefault(options: seq<string>)
    requires options != [] && IsDefault(options[0])
    ensures HasPrefix(TrimLeft(Joined(',', options), IsBlank), "default=")
  {
    if |options| > 1 {
      var rest := [','] + Joined(',', options[1..]);
      assert Joined(',', options) == options[0] + rest;
      TrimLeftConcat(options[0], rest, IsBlank);
    }
  }

  lemma {:induction false} ParseSays(parsed: EnvTag, options: seq<string>, n: nat)
    requires DefaultFrom(options, n) && Parse(parsed, options).Ok?
    ensures SaidBy(parsed, options, n, Parse(parsed, options).tag)
    decreases |options|
  {
    if options != [] {
      if n == 0 {
        DefaultSays(parsed, options);
      } else {
        var next := Next(parsed, options[0]);
        ParsedOn(parsed, options);
        LaterDefault(options, n);
        ParseSays(next, options[1..], n - 1);
        SaidLater(parsed, options, n, Parse(next, options[1..]).tag);
      }
    }
  }

  lemma DefaultSays(parsed: EnvTag, options: seq<string>)
    requires options != [] && IsDefault(options[0])
    ensures Parse(parsed, options).Ok? && SaidBy(parsed, options, 0, Parse(parsed, options).tag)
  {
    DefaultIsNoPrefix(TrimLeft(options[0], IsBlank));
    JoinedStartsDefault(options);
    assert options[0..] == options;
  }

  /** The tag read so far, after one more option that is no default. */
  function Next(parsed: EnvTag, option: string): EnvTag {
    if Starts(option, "prefix=") then parsed.(prefix := TrimPrefix(TrimLeft(option, IsBlank), "prefix=")) else parsed
  }

  lemma ParsedOn(parsed: EnvTag, options: seq<string>)
    requires options != [] && !IsDefault(options[0]) && Parse(parsed, options).Ok?
    ensures Parse(parsed, options) == Parse(Next(parsed, options[0]), options[1..])
  {
  }

  lemma LaterDefault(options: seq<string>, n: nat)
    requires DefaultFrom(options, n) && n > 0
    ensures !IsDefault(options[0]) && DefaultFrom(options[1..], n - 1)
  {
  }

  lemma SaidLater(parsed: EnvTag, options: seq<string>, n: nat, tag: EnvTag)
    requires 0 < n <= |options| && SaidBy(Next(parsed, options[0]), options[1..], n - 1, tag)
    ensures SaidBy(parsed, options, n, tag)
  {
    var rest := options[1..];
    assert forall k | 0 <= k < |rest| :: rest[k] == options[k + 1];
    assert rest[n - 1..] == options[n..];
    forall i: nat | LastPrefix(options, n, i)
      ensures "prefix=" + tag.prefix == TrimLeft(options[i], IsBlank)
    {
      if i > 0 {
        assert LastPrefix(rest, n - 1, i - 1);
      } else {
        assert forall k | 0 <= k < n - 1 :: !Starts(rest[k], "prefix=");
      }
    }
  }

  /** A tag that is accepted, in terms of its text. */
  lemma AcceptedSays(tag: string, n: nat)
    requires Parsed(tag).Ok? && DefaultFrom(Options(tag), n)
    ensures SaidBy(EnvTag(TrimSpace(Split(',', tag)[0]), "", "", false), Options(tag), n, Parsed(tag).tag)
  {
    ParseSays(EnvTag(TrimSpace(Split(',', tag)[0]), "", "", false), Options(tag), n);
  }
}
