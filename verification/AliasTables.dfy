/** Which tables of former names are safe: when the rewriting leaves no former name
    behind, and when it finds every one (internal/config/yamlalias.go). */
module AliasTables {
  import opened Document
  import opened Strings
  import opened YamlAlias

  /** No former key is left anywhere. */
  ghost predicate Clean(entries: seq<Entry>, aliases: Aliases) {
    forall p | HasPath(entries, p) :: !IsOld(aliases, p)
  }

  /** No former name is that key or lies beneath it. */
  ghost predicate ClearOf(aliases: Aliases, landing: string) {
    forall t | t in aliases :: !Under(t, landing)
  }

  function Landing(aliases: Aliases, path: Path, key: string): Path
    requires IsOld(aliases, path + [key])
  {
    path + [NewLeaf(aliases[Name(path + [key])])]
  }

  /** Wherever a former key may stand, its new name there is clear of former names.
      dotted says whether a key of the document may itself contain a dot. */
  ghost predicate SafeFor(aliases: Aliases, dotted: bool) {
    forall path: Path, key: string | (dotted || Lacks('.', key)) && key != MERGE_KEY && IsOld(aliases, path + [key]) ::
      ClearOf(aliases, Name(Landing(aliases, path, key)))
  }

  ghost predicate Undotted(entries: seq<Entry>) {
    forall i | 0 <= i < |entries| ::
      Lacks('.', entries[i].key) && (entries[i].value.Mapping? ==> Undotted(entries[i].value.entries))
  }

  lemma {:induction false} NothingOldLeft(
    entries: seq<Entry>, path: Path, aliases: Aliases, present: set<string>, dotted: bool, p: Path)
    requires SafeFor(aliases, dotted) && (dotted || Undotted(entries))
    requires !HasErrors(RewriteEntries(entries, path, aliases, present).found)
    requires HasPath(RewriteEntries(entries, path, aliases, present).entries, p)
    ensures !IsOld(aliases, path + p)
    decreases entries
  {
    if entries != [] {
      var first := RewriteEntry(entries[0], path, aliases, present);
      var rest := RewriteEntries(entries[1..], path, aliases, present + KeySet(first.entries));
      var after := first.entries + rest.entries;
      assert after[0] == first.entries[0] && after[1..] == rest.entries;
      PathInTail(after, p);
      NoErrorsInParts(first.found, rest.found);
      if HeadHas(first.entries[0], p) {
        HeadHasNothingOld(entries[0], path, aliases, present, dotted, p);
      } else {
        NothingOldLeft(entries[1..], path, aliases, present + KeySet(first.entries), dotted, p);
      }
    }
  }

  lemma NoErrorsInParts(a: seq<Diagnostic>, b: seq<Diagnostic>)
    ensures HasErrors(a + b) <==> HasErrors(a) || HasErrors(b)
  {
    if HasErrors(a) {
      var d :| d in a && d.severity.Error?;
      assert d in a + b;
    }
    if HasErrors(b) {
      var d :| d in b && d.severity.Error?;
      assert d in a + b;
    }
  }

  lemma {:induction false} HeadHasNothingOld(
    entry: Entry, path: Path, aliases: Aliases, present: set<string>, dotted: bool, p: Path)
    requires SafeFor(aliases, dotted)
    requires dotted || (Lacks('.', entry.key) && (entry.value.Mapping? ==> Undotted(entry.value.entries)))
    requires !HasErrors(RewriteEntry(entry, path, aliases, present).found)
    requires HeadHas(RewriteEntry(entry, path, aliases, present).entries[0], p)
    ensures !IsOld(aliases, path + p)
    decreases entry, 0
  {
    var childPath := path + [entry.key];
    if entry.key != MERGE_KEY {
      if IsOld(aliases, childPath) {
        var found := RewriteEntry(entry, path, aliases, present).found;
        assert found[0] in found;
        var landing := Landing(aliases, path, entry.key);
        assert path + p == landing + p[1..];
        NameIsUnder(landing, p[1..]);
      } else if |p| == 1 {
        assert path + p == childPath;
      } else {
        assert path + p == childPath + p[1..];
        NothingOldLeft(entry.value.entries, childPath, aliases, KeySet(entry.value.entries), dotted, p[1..]);
      }
    }
  }

  // ----- the plain renaming -----

  /** Every former key renamed, whatever else its mapping holds. */
  function PlainEntry(entry: Entry, path: Path, aliases: Aliases): Entry
    decreases entry, 0
  {
    var childPath := path + [entry.key];
    if entry.key == MERGE_KEY then entry
    else if IsOld(aliases, childPath) then entry.(key := NewLeaf(aliases[Name(childPath)]))
    else if entry.value.Mapping? then entry.(value := Mapping(Plain(entry.value.entries, childPath, aliases)))
    else entry
  }

  function Plain(entries: seq<Entry>, path: Path, aliases: Aliases): seq<Entry> {
    if entries == [] then [] else [PlainEntry(entries[0], path, aliases)] + Plain(entries[1..], path, aliases)
  }

  /** Without an error, the rewriting is the plain renaming. */
  lemma {:induction false} NoErrorsMeansPlain(entries: seq<Entry>, path: Path, aliases: Aliases, present: set<string>)
    requires !HasErrors(RewriteEntries(entries, path, aliases, present).found)
    ensures RewriteEntries(entries, path, aliases, present).entries == Plain(entries, path, aliases)
    decreases entries
  {
    if entries != [] {
      var first := RewriteEntry(entries[0], path, aliases, present);
      var rest := RewriteEntries(entries[1..], path, aliases, present + KeySet(first.entries));
      NoErrorsInParts(first.found, rest.found);
      NoErrorsMeansPlain(entries[1..], path, aliases, present + KeySet(first.entries));
      var childPath := path + [entries[0].key];
      if entries[0].key != MERGE_KEY {
        if IsOld(aliases, childPath) {
          assert first.found[0] in first.found;
        } else if entries[0].value.Mapping? {
          var inner := entries[0].value.entries;
          NoErrorsMeansPlain(inner, childPath, aliases, KeySet(inner));
        }
      }
    }
  }

  lemma {:induction false} PlainAt(entries: seq<Entry>, path: Path, aliases: Aliases, i: nat)
    requires i < |entries|
    ensures |Plain(entries, path, aliases)| == |entries|
    ensures Plain(entries, path, aliases)[i] == PlainEntry(entries[i], path, aliases)
  {
    if |entries| > 1 {
      PlainAt(entries[1..], path, aliases, if i > 0 then i - 1 else 0);
    }
  }

  /** If the plain renaming keeps keys apart, a new name is no key of the mapping, old or given. */
  lemma LandingIsFree(all: seq<Entry>, i: nat, path: Path, aliases: Aliases, dotted: bool, newLeaf: string)
    requires SafeFor(aliases, dotted) && (dotted || Undotted(all))
    requires DistinctKeys(Plain(all, path, aliases))
    requires i < |all| && all[i].key != MERGE_KEY && IsOld(aliases, path + [all[i].key])
    requires newLeaf == NewLeaf(aliases[Name(path + [all[i].key])])
    ensures newLeaf !in KeySet(all) && newLeaf !in GivenKeys(all, i, path, aliases)
  {
    var plain := Plain(all, path, aliases);
    PlainAt(all, path, aliases, i);
    assert Landing(aliases, path, all[i].key) == path + [newLeaf];
    assert !IsOld(aliases, path + [newLeaf]);
    forall k | 0 <= k < |all|
      ensures all[k].key != newLeaf
    {
      PlainAt(all, path, aliases, k);
    }
  }

  /** The keys the first i entries have under the plain renaming. */
  ghost function GivenKeys(all: seq<Entry>, i: nat, path: Path, aliases: Aliases): set<string>
    requires i <= |all|
  {
    var plain := Plain(all, path, aliases);
    set k | 0 <= k < i && k < |plain| :: plain[k].key
  }

  lemma {:induction false} PlainFits(all: seq<Entry>, i: nat, path: Path, aliases: Aliases, present: set<string>,
                                     dotted: bool)
    requires SafeFor(aliases, dotted) && (dotted || Undotted(all))
    requires i <= |all| && WellFormed(Plain(all, path, aliases))
    requires present <= KeySet(all) + GivenKeys(all, i, path, aliases)
    ensures !HasErrors(RewriteEntries(all[i..], path, aliases, present).found)
    decreases all, |all| - i
  {
    if i < |all| {
      var first := RewriteEntry(all[i], path, aliases, present);
      PlainAt(all, path, aliases, i);
      EntryFits(all, i, path, aliases, present, dotted);
      OneKey(first.entries[0]);
      assert Plain(all, path, aliases)[i].key in GivenKeys(all, i + 1, path, aliases);
      PlainFits(all, i + 1, path, aliases, present + KeySet(first.entries), dotted);
      assert all[i..][1..] == all[i + 1..];
      NoErrorsInParts(first.found, RewriteEntries(all[i + 1..], path, aliases, present + KeySet(first.entries)).found);
    }
  }

  lemma {:induction false} EntryFits(all: seq<Entry>, i: nat, path: Path, aliases: Aliases, present: set<string>,
                                     dotted: bool)
    requires SafeFor(aliases, dotted) && (dotted || Undotted(all))
    requires i < |all| && WellFormed(Plain(all, path, aliases))
    requires present <= KeySet(all) + GivenKeys(all, i, path, aliases)
    ensures var first := RewriteEntry(all[i], path, aliases, present);
            !HasErrors(first.found) && first.entries[0].key == PlainEntry(all[i], path, aliases).key
    decreases all, |all| - i, 0
  {
    var childPath := path + [all[i].key];
    PlainAt(all, path, aliases, i);
    if all[i].key != MERGE_KEY {
      if IsOld(aliases, childPath) {
        LandingIsFree(all, i, path, aliases, dotted, NewLeaf(aliases[Name(childPath)]));
      } else if all[i].value.Mapping? {
        var inner := all[i].value.entries;
        PlainFits(inner, 0, childPath, aliases, KeySet(inner), dotted);
        assert inner[0..] == inner;
      }
    }
  }

  /** An error means that renaming every former key would spell some key twice; without
      one, that renaming is what the document becomes, and no former key is left. */
  lemma RewritingSucceedsIff(doc: seq<Entry>, aliases: Aliases, dotted: bool)
    requires SafeFor(aliases, dotted) && (dotted || Undotted(doc)) && WellFormed(doc)
    ensures var r := Rewritten(doc, [], aliases);
            && (!HasErrors(r.found) <==> WellFormed(Plain(doc, [], aliases)))
            && (!HasErrors(r.found) ==> r.entries == Plain(doc, [], aliases) && Clean(r.entries, aliases))
  {
    var r := Rewritten(doc, [], aliases);
    if WellFormed(Plain(doc, [], aliases)) {
      PlainFits(doc, 0, [], aliases, KeySet(doc), dotted);
      assert doc[0..] == doc;
    }
    if !HasErrors(r.found) {
      NoErrorsMeansPlain(doc, [], aliases, KeySet(doc));
      RewritingKeepsKeysApart(doc, [], aliases, KeySet(doc));
      forall p | HasPath(r.entries, p)
        ensures !IsOld(aliases, p)
      {
        NothingOldLeft(doc, [], aliases, KeySet(doc), dotted, p);
        assert [] + p == p;
      }
    }
  }

  // ----- tables that rename in place -----

  /** What comes before the last key of a dotted name, dot included. */
  function SectionOf(name: string): string {
    if |NewLeaf(name)| <= |name| then name[..|name| - |NewLeaf(name)|] else name
  }

  ghost predicate InPlace(aliases: Aliases) {
    forall s | s in aliases :: SectionOf(s) == SectionOf(aliases[s])
  }

  ghost predicate ClearOfTargets(aliases: Aliases) {
    forall s | s in aliases :: ClearOf(aliases, aliases[s])
  }

  lemma {:induction false} LeafEnds(name: string)
    ensures |NewLeaf(name)| <= |name| && name == SectionOf(name) + NewLeaf(name)
  {
    var parts := Split('.', name);
    var n := |parts| - 1;
    JoinedSplit('.', name);
    if n > 0 {
      JoinedConcat('.', parts[..n], parts[n..]);
      assert parts == parts[..n] + parts[n..];
    }
  }

  lemma LeafOfPath(path: Path, key: string)
    requires Lacks('.', key)
    ensures NewLeaf(Name(path + [key])) == key
    ensures SectionOf(Name(path + [key])) == if path == [] then "" else Name(path) + "."
  {
    SplitWhole('.', key);
    if path == [] {
      assert path + [key] == [key];
    } else {
      JoinedConcat('.', path, [key]);
      SplitAt('.', Name(path), key);
    }
  }

  lemma InPlaceIsSafe(aliases: Aliases)
    requires InPlace(aliases) && ClearOfTargets(aliases)
    ensures SafeFor(aliases, false)
  {
    forall path: Path, key: string | Lacks('.', key) && key != MERGE_KEY && IsOld(aliases, path + [key])
      ensures ClearOf(aliases, Name(Landing(aliases, path, key)))
    {
      var current := aliases[Name(path + [key])];
      LeafOfPath(path, key);
      LeafEnds(current);
      SplitParts('.', current);
      LeafOfPath(path, NewLeaf(current));
      LeafEnds(Name(path + [NewLeaf(current)]));
    }
  }

  /** What such a table does to a document whose keys have no dots. */
  lemma InPlaceRewriting(doc: seq<Entry>, aliases: Aliases)
    requires InPlace(aliases) && ClearOfTargets(aliases) && Unnested(aliases)
    requires WellFormed(doc) && Undotted(doc)
    ensures var r := Rewritten(doc, [], aliases);
            && WellFormed(r.entries) && OnlyRenamed(doc, r.entries, [], aliases)
            && DistinctPaths(r.found)
            && (forall p | p != [] :: Reports(r.found, p) <==> HasPath(doc, p) && IsOld(aliases, p))
            && (!HasErrors(r.found) <==> WellFormed(Plain(doc, [], aliases)))
            && (!HasErrors(r.found) ==> Clean(r.entries, aliases))
  {
    RewritingKeepsKeysApart(doc, [], aliases, KeySet(doc));
    RewritingOnlyRenames(doc, [], aliases, KeySet(doc));
    ReportsOnce(doc, [], aliases, KeySet(doc));
    forall p: Path | p != []
      ensures Reports(Rewritten(doc, [], aliases).found, p) <==> HasPath(doc, p) && IsOld(aliases, p)
    {
      ReportsIff(doc, [], aliases, KeySet(doc), p);
      assert [] + p == p;
    }
    InPlaceIsSafe(aliases);
    RewritingSucceedsIff(doc, aliases, false);
  }

  // ----- which tables are safe for every document -----

  /** At whatever dot a former name splits into a section and a key, the section's new
      key is clear of former names; and so is the new key at the root. */
  ghost predicate SafeTable(aliases: Aliases) {
    forall s | s in aliases ::
      ClearOf(aliases, NewLeaf(aliases[s])) && forall i: nat | i < |s| :: ClearSplit(aliases, s, i)
  }

  /** If name s splits at i, its section's new key is clear of former names. */
  ghost predicate ClearSplit(aliases: Aliases, s: string, i: nat)
    requires s in aliases && i < |s|
  {
    s[i] == '.' ==> ClearOf(aliases, s[..i] + "." + NewLeaf(aliases[s]))
  }

  /** Every name is given another last part, and none is a merge key. */
  ghost predicate Tidy(aliases: Aliases) {
    forall s | s in aliases ::
      && MERGE_KEY !in Split('.', s)
      && NewLeaf(aliases[s]) != MERGE_KEY && NewLeaf(aliases[s]) != NewLeaf(s)
  }

  lemma SafeTableIsSafe(aliases: Aliases)
    requires SafeTable(aliases)
    ensures SafeFor(aliases, true)
  {
    forall path: Path, key: string | key != MERGE_KEY && IsOld(aliases, path + [key])
      ensures ClearOf(aliases, Name(Landing(aliases, path, key)))
    {
      LandingIsClear(aliases, path, key);
    }
  }

  lemma LandingIsClear(aliases: Aliases, path: Path, key: string)
    requires SafeTable(aliases) && IsOld(aliases, path + [key])
    ensures ClearOf(aliases, Name(Landing(aliases, path, key)))
  {
    var s := Name(path + [key]);
    var n := NewLeaf(aliases[s]);
    if path == [] {
      assert Landing(aliases, path, key) == [n] && Name([n]) == n;
    } else {
      SplitName(path, key, n);
      assert ClearSplit(aliases, s, |Name(path)|);
    }
  }

  lemma SplitName(path: Path, key: string, n: string)
    requires path != []
    ensures var s, i := Name(path + [key]), |Name(path)|;
            i < |s| && s[i] == '.' && Name(path + [n]) == s[..i] + "." + n
  {
    JoinedConcat('.', path, [key]);
    JoinedConcat('.', path, [n]);
    assert Name(path + [key]) == Name(path) + ['.'] + key;
    assert Name(path + [key])[..|Name(path)|] == Name(path);
  }

  /** What is under the landing when its full name is to be t. */
  function Remainder(t: string, landing: string): Node
    requires Under(t, landing)
  {
    if t == landing then Scalar("") else Mapping([Entry(t[|landing| + 1..], 1, Scalar(""))])
  }

  lemma SingleHasPath(key: string, value: Node, p: Path)
    requires key != MERGE_KEY && p != []
    requires p == [key] || (p[0] == key && value.Mapping? && HasPath(value.entries, p[1..]))
    ensures HasPath([Entry(key, 0, value)], p)
  {
    assert [Entry(key, 0, value)][0].key == key;
  }

  lemma RemainderIsOld(aliases: Aliases, path: Path, landing: string, t: string)
    requires Tidy(aliases) && t in aliases && Under(t, Name(path + [landing])) && landing != MERGE_KEY
    ensures exists p :: p != [] && HasPath([Entry(landing, 0, Remainder(t, Name(path + [landing])))], p)
                        && IsOld(aliases, path + p)
  {
    var name := Name(path + [landing]);
    var value := Remainder(t, name);
    if t == name {
      SingleHasPath(landing, value, [landing]);
    } else {
      var rest := t[|name| + 1..];
      assert t == name + "." + rest;
      SplitAt('.', name, rest);
      SplitWhole('.', MERGE_KEY);
      assert rest != MERGE_KEY;
      assert HasPath(value.entries, [rest]) by {
        assert value.entries[0].key == rest;
      }
      SingleHasPath(landing, value, [landing, rest]);
      JoinedConcat('.', path + [landing], [rest]);
      assert path + [landing, rest] == path + [landing] + [rest];
    }
  }

  /** The document is rewritten without complaint, and a former key is left in it. */
  ghost predicate LeavesOld(aliases: Aliases, doc: seq<Entry>) {
    var r := Rewritten(doc, [], aliases);
    WellFormed(doc) && !HasErrors(r.found) && !Clean(r.entries, aliases)
  }

  lemma TidyName(aliases: Aliases, s: string)
    requires Tidy(aliases) && s in aliases
    ensures s != MERGE_KEY && NewLeaf(aliases[s]) != s
  {
    SplitWhole('.', MERGE_KEY);
    var n := NewLeaf(aliases[s]);
    SplitParts('.', aliases[s]);
    SplitWhole('.', n);
  }

  lemma TidySplit(aliases: Aliases, s: string, i: nat)
    requires Tidy(aliases) && s in aliases && i < |s| && s[i] == '.'
    ensures s[..i] != MERGE_KEY && s[i + 1..] != MERGE_KEY && NewLeaf(aliases[s]) != s[i + 1..]
    ensures Name([s[..i], s[i + 1..]]) == s && Under(s, s[..i])
  {
    var section, key := s[..i], s[i + 1..];
    assert s == section + ['.'] + key;
    SplitAt('.', section, key);
    SplitWhole('.', MERGE_KEY);
    var n := NewLeaf(aliases[s]);
    SplitParts('.', aliases[s]);
    SplitWhole('.', n);
    JoinedConcat('.', [section], [key]);
    assert [section] + [key] == [section, key];
  }

  lemma SingleEntry(entry: Entry, path: Path, aliases: Aliases)
    ensures Rewritten([entry], path, aliases) == RewriteEntry(entry, path, aliases, {entry.key})
  {
    var first := RewriteEntry(entry, path, aliases, {entry.key});
    OneKey(entry);
    var rest := RewriteEntries([entry][1..], path, aliases, {entry.key} + KeySet(first.entries));
    assert rest == Rewrite([], []);
    assert first.entries + [] == first.entries && first.found + [] == first.found;
  }

  lemma SingleRenamed(entry: Entry, path: Path, aliases: Aliases)
    requires entry.key != MERGE_KEY && IsOld(aliases, path + [entry.key])
    requires NewLeaf(aliases[Name(path + [entry.key])]) != entry.key
    ensures Rewritten([entry], path, aliases) ==
            Rewrite([entry.(key := NewLeaf(aliases[Name(path + [entry.key])]))],
                    [Diagnostic(Warning, path + [entry.key], entry.line)])
  {
    SingleEntry(entry, path, aliases);
  }

  lemma SingleEntered(key: string, inner: seq<Entry>, path: Path, aliases: Aliases)
    requires key != MERGE_KEY && !IsOld(aliases, path + [key])
    ensures var r := Rewritten(inner, path + [key], aliases);
            Rewritten([Entry(key, 0, Mapping(inner))], path, aliases) ==
              Rewrite([Entry(key, 0, Mapping(r.entries))], r.found)
  {
    SingleEntry(Entry(key, 0, Mapping(inner)), path, aliases);
  }

  lemma LeftBehind(aliases: Aliases, doc: seq<Entry>, after: seq<Entry>, renamed: Path, p: Path)
    requires WellFormed(doc) && Rewritten(doc, [], aliases) == Rewrite(after, [Diagnostic(Warning, renamed, 0)])
    requires HasPath(after, p) && IsOld(aliases, p)
    ensures LeavesOld(aliases, doc)
  {
    var r := Rewritten(doc, [], aliases);
    assert r.found == [Diagnostic(Warning, renamed, 0)];
    assert !HasErrors(r.found);
    assert !Clean(r.entries, aliases);
  }

  lemma RemainderIsWellFormed(key: string, t: string, landing: string)
    requires Under(t, landing)
    ensures WellFormed([Entry(key, 0, Remainder(t, landing))])
  {
    if t != landing {
      assert WellFormed([Entry(t[|landing| + 1..], 1, Scalar(""))]);
    }
  }

  lemma OldAtRootIsLeft(aliases: Aliases, s: string, t: string)
    requires Tidy(aliases) && s in aliases && t in aliases && Under(t, NewLeaf(aliases[s]))
    ensures exists doc :: LeavesOld(aliases, doc)
  {
    var n := NewLeaf(aliases[s]);
    var value := Remainder(t, n);
    TidyName(aliases, s);
    assert [] + [s] == [s] && [] + [n] == [n] && Name([s]) == s;
    SingleRenamed(Entry(s, 0, value), [], aliases);
    RemainderIsOld(aliases, [], n, t);
    var p: Path :| p != [] && HasPath([Entry(n, 0, value)], p) && IsOld(aliases, [] + p);
    assert [] + p == p;
    RemainderIsWellFormed(s, t, n);
    LeftBehind(aliases, [Entry(s, 0, value)], [Entry(n, 0, value)], [s], p);
  }

  lemma OldInSectionIsLeft(aliases: Aliases, s: string, i: nat, t: string)
    requires Tidy(aliases) && Unnested(aliases) && s in aliases && t in aliases
    requires i < |s| && s[i] == '.' && Under(t, s[..i] + "." + NewLeaf(aliases[s]))
    ensures exists doc :: LeavesOld(aliases, doc)
  {
    var section, key, n := s[..i], s[i + 1..], NewLeaf(aliases[s]);
    TidySplit(aliases, s, i);
    JoinedConcat('.', [section], [n]);
    assert [section] + [n] == [section, n] && [section] + [key] == [section, key] && [] + [section] == [section];
    assert Name([section]) == section && section != s;
    var value := Remainder(t, Name([section] + [n]));
    var inner, renamed := [Entry(key, 0, value)], [Entry(n, 0, value)];
    SingleRenamed(Entry(key, 0, value), [section], aliases);
    SingleEntered(section, inner, [], aliases);
    RemainderIsOld(aliases, [section], n, t);
    var p: Path :| p != [] && HasPath(renamed, p) && IsOld(aliases, [section] + p);
    assert ([section] + p)[1..] == p;
    SingleHasPath(section, Mapping(renamed), [section] + p);
    RemainderIsWellFormed(key, t, Name([section] + [n]));
    LeftBehind(aliases, [Entry(section, 0, Mapping(inner))], [Entry(section, 0, Mapping(renamed))], [section, key],
               [section] + p);
  }

  /** A tidy table is safe exactly if no document is left with a former key. */
  lemma TableIsSafeIff(aliases: Aliases)
    requires Tidy(aliases) && Unnested(aliases)
    ensures SafeTable(aliases) <==> forall doc :: !LeavesOld(aliases, doc)
  {
    if SafeTable(aliases) {
      SafeTableIsSafe(aliases);
      forall doc
        ensures !LeavesOld(aliases, doc)
      {
        if WellFormed(doc) {
          RewritingSucceedsIff(doc, aliases, true);
        }
      }
    } else {
      var s :| s in aliases &&
        !(ClearOf(aliases, NewLeaf(aliases[s])) && forall i: nat | i < |s| :: ClearSplit(aliases, s, i));
      if !ClearOf(aliases, NewLeaf(aliases[s])) {
        var t :| t in aliases && Under(t, NewLeaf(aliases[s]));
        OldAtRootIsLeft(aliases, s, t);
      } else {
        var i: nat :| i < |s| && !ClearSplit(aliases, s, i);
        var t :| t in aliases && Under(t, s[..i] + "." + NewLeaf(aliases[s]));
        OldInSectionIsLeft(aliases, s, i, t);
      }
    }
  }

  /** A former key that the walk goes past without a word. */
  ghost predicate Misses(aliases: Aliases, doc: seq<Entry>, p: Path) {
    WellFormed(doc) && HasPath(doc, p) && IsOld(aliases, p) && !Reports(Rewritten(doc, [], aliases).found, p)
  }

  lemma NestedParts(aliases: Aliases, s: string, t: string)
    requires Tidy(aliases) && s in aliases && t in aliases && s != t && Under(t, s)
    ensures |t| > |s| && s != MERGE_KEY && t[|s| + 1..] != MERGE_KEY
    ensures IsOld(aliases, [s]) && IsOld(aliases, [s, t[|s| + 1..]])
  {
    assert t[..|s|] == s && t[|s|] == '.';
    TidyName(aliases, s);
    TidySplit(aliases, t, |s|);
  }

  lemma NestedIsMissed(aliases: Aliases, s: string, t: string)
    requires Tidy(aliases) && s in aliases && t in aliases && s != t && Under(t, s)
    ensures exists doc, p :: Misses(aliases, doc, p)
  {
    NestedParts(aliases, s, t);
    var rest := t[|s| + 1..];
    NestedHasPath(s, rest);
    HeadIsOnlyReport(NestedDocument(s, rest)[0], aliases, [s, rest]);
    assert Misses(aliases, NestedDocument(s, rest), [s, rest]);
  }

  function NestedDocument(s: string, rest: string): seq<Entry> {
    [Entry(s, 0, Mapping([Entry(rest, 0, Scalar(""))]))]
  }

  lemma NestedHasPath(s: string, rest: string)
    requires s != MERGE_KEY && rest != MERGE_KEY
    ensures HasPath(NestedDocument(s, rest), [s, rest]) && WellFormed(NestedDocument(s, rest))
  {
    var inner := [Entry(rest, 0, Scalar(""))];
    SingleHasPath(rest, Scalar(""), [rest]);
    SingleHasPath(s, Mapping(inner), [s, rest]);
    assert WellFormed(inner);
  }

  lemma HeadIsOnlyReport(entry: Entry, aliases: Aliases, p: Path)
    requires entry.key != MERGE_KEY && IsOld(aliases, [entry.key]) && p != [entry.key]
    ensures !Reports(Rewritten([entry], [], aliases).found, p)
  {
    SingleEntry(entry, [], aliases);
    assert [] + [entry.key] == [entry.key];
    var found := RewriteEntry(entry, [], aliases, {entry.key}).found;
    assert |found| == 1 && found[0].path == [entry.key];
  }

  /** Every former key is reported exactly if no former name lies beneath another. */
  lemma ReportsAllIff(aliases: Aliases)
    requires Tidy(aliases)
    ensures Unnested(aliases) <==> forall doc, p :: !Misses(aliases, doc, p)
  {
    if Unnested(aliases) {
      forall doc, p
        ensures !Misses(aliases, doc, p)
      {
        if HasPath(doc, p) {
          ReportsIff(doc, [], aliases, KeySet(doc), p);
          assert [] + p == p;
        }
      }
    } else {
      var s, t :| s in aliases && t in aliases && s != t && Under(t, s);
      NestedIsMissed(aliases, s, t);
    }
  }

  const EXAMPLE: Aliases := map["a.b" := "a.c", "c" := "d"]

  lemma ExampleLeaves()
    ensures NewLeaf("a.b") == "b" && NewLeaf("a.c") == "c" && NewLeaf("c") == "c" && NewLeaf("d") == "d"
  {
    assert "a" + ['.'] + "b" == "a.b" && "a" + ['.'] + "c" == "a.c";
    SplitAt('.', "a", "b");
    SplitAt('.', "a", "c");
    SplitWhole('.', "b");
    SplitWhole('.', "c");
    SplitWhole('.', "d");
  }

  lemma NotUnder(name: string, key: string, i: nat)
    requires i < |name| && i < |key| && name[i] != key[i]
    ensures !Under(name, key)
  {
    assert (key + ".")[i] == key[i];
  }

  lemma ExampleIsClear()
    ensures ClearOfTargets(EXAMPLE) && Unnested(EXAMPLE)
  {
    NotUnder("a.b", "a.c", 2);
    NotUnder("a.b", "c", 0);
    NotUnder("a.b", "d", 0);
    NotUnder("c", "a.c", 0);
    NotUnder("c", "a.b", 0);
    NotUnder("c", "d", 0);
  }

  lemma ExampleIsInPlace()
    ensures InPlace(EXAMPLE)
  {
    ExampleLeaves();
    assert SectionOf("a.b") == "a." && SectionOf("a.c") == "a.";
  }

  /** An in-place table whose former names lie neither beneath each other nor at or
      beneath a current name is not yet safe: a key that itself contains a dot can be
      renamed into a former name. */
  lemma DottedKeyLeavesOldName()
    ensures InPlace(EXAMPLE) && ClearOfTargets(EXAMPLE) && Unnested(EXAMPLE)
    ensures LeavesOld(EXAMPLE, [Entry("a.b", 0, Scalar("on"))])
  {
    ExampleIsInPlace();
    ExampleIsClear();
    ExampleLeaves();
    assert [] + ["a.b"] == ["a.b"] && Name(["a.b"]) == "a.b" && Name(["c"]) == "c";
    var entry := Entry("a.b", 0, Scalar("on"));
    assert EXAMPLE["a.b"] == "a.c";
    SingleRenamed(entry, [], EXAMPLE);
    SingleHasPath("c", Scalar("on"), ["c"]);
    LeftBehind(EXAMPLE, [entry], [Entry("c", 0, Scalar("on"))], ["a.b"], ["c"]);
  }
}
