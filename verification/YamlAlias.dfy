/** Renaming former keys of a configuration file to their current names
    (internal/config/yamlalias.go). */
module YamlAlias {
  import opened Document
  import opened Strings

  /** A former dotted name to the current one. */
  type Aliases = map<string, string>

  /** What follows the last dot. */
  function NewLeaf(current: string): string {
    var parts := Split('.', current);
    parts[|parts| - 1]
  }

  predicate IsOld(aliases: Aliases, path: Path) {
    Name(path) in aliases
  }

  // ----- what the walk does -----

  datatype Rewrite = Rewrite(entries: seq<Entry>, found: seq<Diagnostic>)

  /** One entry, after others of its mapping: present is every key the mapping has
      spelled or has been given. */
  function RewriteEntry(entry: Entry, path: Path, aliases: Aliases, present: set<string>): Rewrite
    decreases entry, 0
  {
    var childPath := path + [entry.key];
    if entry.key == MERGE_KEY then Rewrite([entry], [])
    else if !IsOld(aliases, childPath) then
      if entry.value.Mapping? then
        var inner := RewriteEntries(entry.value.entries, childPath, aliases, KeySet(entry.value.entries));
        Rewrite([entry.(value := Mapping(inner.entries))], inner.found)
      else Rewrite([entry], [])
    else
      var newLeaf := NewLeaf(aliases[Name(childPath)]);
      if newLeaf in present then Rewrite([entry], [Diagnostic(Error, childPath, entry.line)])
      else Rewrite([entry.(key := newLeaf)], [Diagnostic(Warning, childPath, entry.line)])
  }

  function RewriteEntries(entries: seq<Entry>, path: Path, aliases: Aliases, present: set<string>): Rewrite
    decreases entries
  {
    if entries == [] then Rewrite([], [])
    else
      var first := RewriteEntry(entries[0], path, aliases, present);
      var rest := RewriteEntries(entries[1..], path, aliases, present + KeySet(first.entries));
      Rewrite(first.entries + rest.entries, first.found + rest.found)
  }

  function Rewritten(entries: seq<Entry>, path: Path, aliases: Aliases): Rewrite {
    RewriteEntries(entries, path, aliases, KeySet(entries))
  }

  /** From entry i on, the walk still has this to do. */
  ghost predicate Continues(whole: Rewrite, done: seq<Entry>, found: seq<Diagnostic>, left: Rewrite) {
    whole == Rewrite(done + left.entries, found + left.found)
  }

  lemma Advance(entries: seq<Entry>, i: nat, path: Path, aliases: Aliases, present: set<string>,
                whole: Rewrite, done: seq<Entry>, found: seq<Diagnostic>)
    requires i < |entries| && Continues(whole, done, found, RewriteEntries(entries[i..], path, aliases, present))
    ensures var step := RewriteEntry(entries[i], path, aliases, present);
            Continues(whole, done + step.entries, found + step.found,
                      RewriteEntries(entries[i + 1..], path, aliases, present + KeySet(step.entries)))
  {
    var step := RewriteEntry(entries[i], path, aliases, present);
    var rest := RewriteEntries(entries[i + 1..], path, aliases, present + KeySet(step.entries));
    assert entries[i..][1..] == entries[i + 1..];
    assert done + (step.entries + rest.entries) == done + step.entries + rest.entries;
    assert found + (step.found + rest.found) == found + step.found + rest.found;
  }

  /** The walk itself overwrites keys where they stand and appends to one list. */
  method RewriteAliases(entries: seq<Entry>, path: Path, aliases: Aliases, out: seq<Diagnostic>)
    returns (rewritten: seq<Entry>, grown: seq<Diagnostic>)
    ensures rewritten == Rewritten(entries, path, aliases).entries
    ensures grown == out + Rewritten(entries, path, aliases).found
    decreases entries
  {
    rewritten, grown := entries, out;
    var present := KeySet(entries);
    ghost var whole := Rewritten(entries, path, aliases);
    ghost var found := [];
    for i := 0 to |entries|
      invariant |rewritten| == |entries| && rewritten[i..] == entries[i..]
      invariant forall k | 0 <= k < |entries| :: entries[k].key in present
      invariant Continues(whole, rewritten[..i], found, RewriteEntries(entries[i..], path, aliases, present))
      invariant grown == out + found
    {
      Advance(entries, i, path, aliases, present, whole, rewritten[..i], found);
      ghost var step := RewriteEntry(entries[i], path, aliases, present);
      var entry;
      entry, present, grown := RewriteKey(entries[i], path, aliases, present, grown);
      rewritten := rewritten[i := entry];
      found := found + step.found;
      assert rewritten[..i + 1] == rewritten[..i] + step.entries;
    }
    assert rewritten[..|entries|] == rewritten;
  }

  method RewriteKey(entry: Entry, path: Path, aliases: Aliases, present: set<string>, out: seq<Diagnostic>)
    returns (changed: Entry, spelled: set<string>, grown: seq<Diagnostic>)
    requires entry.key in present
    ensures var step := RewriteEntry(entry, path, aliases, present);
            step.entries == [changed] && spelled == present + KeySet(step.entries) && grown == out + step.found
    decreases entry, 0
  {
    changed, spelled, grown := entry, present, out;
    if entry.key != MERGE_KEY {
      var childPath := path + [entry.key];
      var name := Name(childPath);
      if name !in aliases {
        if entry.value.Mapping? {
          var inner;
          inner, grown := RewriteAliases(entry.value.entries, childPath, aliases, out);
          changed := entry.(value := Mapping(inner));
        }
      } else {
        var newLeaf := NewLeaf(aliases[name]);
        if newLeaf in present {
          grown := out + [Diagnostic(Error, childPath, entry.line)];
        } else {
          grown := out + [Diagnostic(Warning, childPath, entry.line)];
          changed := entry.(key := newLeaf);
          spelled := present + {newLeaf};
        }
      }
    }
    OneKey(changed);
  }

  // ----- what stays as it was -----

  /** Entry for entry the same, but that a former key may have its current name: the
      line, the order and every value stay, and everything under a former key. */
  ghost predicate OnlyRenamed(before: seq<Entry>, after: seq<Entry>, path: Path, aliases: Aliases)
    decreases before
  {
    |after| == |before| &&
    forall i | 0 <= i < |before| ::
      var was, now := before[i], after[i];
      var childPath := path + [was.key];
      && now.line == was.line
      && (if was.key != MERGE_KEY && IsOld(aliases, childPath)
          then now.value == was.value && (now.key == was.key || now.key == NewLeaf(aliases[Name(childPath)]))
          else now.key == was.key &&
               if was.key != MERGE_KEY && was.value.Mapping?
               then now.value.Mapping? && OnlyRenamed(was.value.entries, now.value.entries, childPath, aliases)
               else now.value == was.value)
  }

  lemma {:induction false} RewritingOnlyRenames(entries: seq<Entry>, path: Path, aliases: Aliases, present: set<string>)
    ensures OnlyRenamed(entries, RewriteEntries(entries, path, aliases, present).entries, path, aliases)
    decreases entries
  {
    if entries != [] {
      var first := RewriteEntry(entries[0], path, aliases, present);
      var rest := RewriteEntries(entries[1..], path, aliases, present + KeySet(first.entries));
      RewritingOnlyRenames(entries[1..], path, aliases, present + KeySet(first.entries));
      if entries[0].value.Mapping? {
        var inner := entries[0].value.entries;
        RewritingOnlyRenames(inner, path + [entries[0].key], aliases, KeySet(inner));
      }
      forall i | 0 < i < |entries|
        ensures entries[i] == entries[1..][i - 1] && (first.entries + rest.entries)[i] == rest.entries[i - 1]
      {
      }
    }
  }

  /** The keys given so far never come up again. */
  lemma {:induction false} RewritingKeepsKeysApart(entries: seq<Entry>, path: Path, aliases: Aliases,
                                                   present: set<string>)
    requires WellFormed(entries) && KeySet(entries) <= present
    ensures var after := RewriteEntries(entries, path, aliases, present).entries;
            WellFormed(after) && forall e | e in after :: e.key in KeySet(entries) || e.key !in present
    decreases entries
  {
    if entries != [] {
      var first := RewriteEntry(entries[0], path, aliases, present);
      var rest := RewriteEntries(entries[1..], path, aliases, present + KeySet(first.entries));
      FirstKeepsKeysApart(entries, path, aliases, present);
      TailKeys(entries);
      RewritingKeepsKeysApart(entries[1..], path, aliases, present + KeySet(first.entries));
      OneKey(first.entries[0]);
      forall i | 0 <= i < |rest.entries|
        ensures rest.entries[i].key != first.entries[0].key
      {
        assert rest.entries[i] in rest.entries;
      }
    }
  }

  lemma {:induction false} FirstKeepsKeysApart(entries: seq<Entry>, path: Path, aliases: Aliases, present: set<string>)
    requires entries != [] && WellFormed(entries) && KeySet(entries) <= present
    ensures var first := RewriteEntry(entries[0], path, aliases, present).entries[0];
            && (first.value.Mapping? ==> WellFormed(first.value.entries))
            && (first.key == entries[0].key || first.key !in present)
    decreases entries, 0
  {
    if entries[0].value.Mapping? {
      var inner := entries[0].value.entries;
      RewritingKeepsKeysApart(inner, path + [entries[0].key], aliases, KeySet(inner));
    }
  }

  // ----- what is reported -----

  /** No former key has another beneath it, so the walk, which stops at one, misses none. */
  ghost predicate Unnested(aliases: Aliases) {
    forall s, t | s in aliases && t in aliases && s != t :: !Under(t, s)
  }

  lemma {:induction false} DiagnosticsAreAboutKeys(entries: seq<Entry>, path: Path, aliases: Aliases,
                                                   present: set<string>)
    ensures AboutKeys(RewriteEntries(entries, path, aliases, present).found, path, KeySet(entries))
    decreases entries
  {
    if entries != [] {
      var first := RewriteEntry(entries[0], path, aliases, present);
      HeadIsAboutItsKey(entries[0], path, aliases, present);
      DiagnosticsAreAboutKeys(entries[1..], path, aliases, present + KeySet(first.entries));
      TailKeys(entries);
    }
  }

  lemma {:induction false} HeadIsAboutItsKey(entry: Entry, path: Path, aliases: Aliases, present: set<string>)
    ensures AboutKeys(RewriteEntry(entry, path, aliases, present).found, path, {entry.key})
    decreases entry, 0
  {
    if entry.value.Mapping? {
      var inner := entry.value.entries;
      var childPath := path + [entry.key];
      DiagnosticsAreAboutKeys(inner, childPath, aliases, KeySet(inner));
      forall d | d in RewriteEntries(inner, childPath, aliases, KeySet(inner)).found
        ensures d.path[..|path|] == path && d.path[|path|] == entry.key
      {
        assert d.path[..|path| + 1] == childPath;
        assert d.path[..|path|] == childPath[..|path|];
      }
    }
  }

  lemma OldIsNotBeneathOld(aliases: Aliases, p: Path, q: Path)
    requires Unnested(aliases) && p != [] && q != [] && IsOld(aliases, p)
    ensures !IsOld(aliases, p + q)
  {
    NameIsUnder(p, q);
    JoinedConcat('.', p, q);
    assert |Name(p + q)| > |Name(p)|;
  }

  lemma {:induction false} HeadReportsIff(entry: Entry, path: Path, aliases: Aliases, present: set<string>, p: Path)
    requires Unnested(aliases) && p != []
    ensures Reports(RewriteEntry(entry, path, aliases, present).found, path + p) <==>
            HeadHas(entry, p) && IsOld(aliases, path + p)
    decreases entry, 0
  {
    var childPath := path + [entry.key];
    var found := RewriteEntry(entry, path, aliases, present).found;
    HeadIsAboutItsKey(entry, path, aliases, present);
    if p[0] != entry.key {
      assert (path + p)[|path|] == p[0];
    } else if entry.key != MERGE_KEY {
      assert path + p == childPath + p[1..];
      if IsOld(aliases, childPath) {
        assert found[0].path == childPath;
        if |p| > 1 {
          OldIsNotBeneathOld(aliases, childPath, p[1..]);
        } else {
          assert path + p == childPath;
        }
      } else if |p| == 1 {
        assert path + p == childPath;
        NotAboutItself(entry, path, aliases, present);
      } else if entry.value.Mapping? {
        ReportsIff(entry.value.entries, childPath, aliases, KeySet(entry.value.entries), p[1..]);
      }
    }
  }

  lemma NotAboutItself(entry: Entry, path: Path, aliases: Aliases, present: set<string>)
    requires !IsOld(aliases, path + [entry.key])
    ensures !Reports(RewriteEntry(entry, path, aliases, present).found, path + [entry.key])
  {
    if entry.value.Mapping? {
      DiagnosticsAreAboutKeys(entry.value.entries, path + [entry.key], aliases, KeySet(entry.value.entries));
    }
  }

  /** What is reported is exactly the former keys of the document. */
  lemma {:induction false} ReportsIff(entries: seq<Entry>, path: Path, aliases: Aliases, present: set<string>, p: Path)
    requires Unnested(aliases) && p != []
    ensures Reports(RewriteEntries(entries, path, aliases, present).found, path + p) <==>
            HasPath(entries, p) && IsOld(aliases, path + p)
    decreases entries
  {
    if entries != [] {
      var first := RewriteEntry(entries[0], path, aliases, present);
      PathInTail(entries, p);
      HeadReportsIff(entries[0], path, aliases, present, p);
      ReportsIff(entries[1..], path, aliases, present + KeySet(first.entries), p);
      ReportsEither(first.found, RewriteEntries(entries[1..], path, aliases, present + KeySet(first.entries)).found,
                    path + p);
    }
  }

  /** Every diagnostic names the line of its key. */
  lemma {:induction false} ReportsLines(entries: seq<Entry>, path: Path, aliases: Aliases, present: set<string>)
    ensures OnTheirLines(RewriteEntries(entries, path, aliases, present).found, path, entries)
    decreases entries
  {
    if entries != [] {
      var first := RewriteEntry(entries[0], path, aliases, present);
      HeadReportsLine(entries[0], path, aliases, present);
      ReportsLines(entries[1..], path, aliases, present + KeySet(first.entries));
      LinesOfAll(first.found, RewriteEntries(entries[1..], path, aliases, present + KeySet(first.entries)).found, path,
                 entries);
    }
  }

  lemma {:induction false} HeadReportsLine(entry: Entry, path: Path, aliases: Aliases, present: set<string>)
    ensures OnTheirLines(RewriteEntry(entry, path, aliases, present).found, path, [entry])
    decreases entry, 0
  {
    if entry.key != MERGE_KEY {
      LineOfKey(path, entry, Error);
      LineOfKey(path, entry, Warning);
      if entry.value.Mapping? {
        var inner := entry.value.entries;
        ReportsLines(inner, path + [entry.key], aliases, KeySet(inner));
        LinesBelow(RewriteEntries(inner, path + [entry.key], aliases, KeySet(inner)).found, path, entry);
      }
    }
  }

  /** A diagnostic is an error exactly if its key is still there afterwards. */
  ghost predicate ErrorsStay(found: seq<Diagnostic>, path: Path, after: seq<Entry>) {
    forall d | d in found :: |d.path| > |path| && (d.severity.Error? <==> HasPath(after, d.path[|path|..]))
  }

  lemma {:induction false} ErrorsAreLeft(entries: seq<Entry>, path: Path, aliases: Aliases, present: set<string>)
    requires WellFormed(entries) && KeySet(entries) <= present
    ensures var r := RewriteEntries(entries, path, aliases, present); ErrorsStay(r.found, path, r.entries)
    decreases entries
  {
    if entries != [] {
      var first := RewriteEntry(entries[0], path, aliases, present);
      var rest := RewriteEntries(entries[1..], path, aliases, present + KeySet(first.entries));
      TailKeys(entries);
      OneKey(first.entries[0]);
      HeadErrorIsLeft(entries[0], path, aliases, present);
      ErrorsAreLeft(entries[1..], path, aliases, present + KeySet(first.entries));
      HeadIsAboutItsKey(entries[0], path, aliases, present);
      DiagnosticsAreAboutKeys(entries[1..], path, aliases, present + KeySet(first.entries));
      RewritingKeepsKeysApart(entries[1..], path, aliases, present + KeySet(first.entries));
      FirstKeepsKeysApart(entries, path, aliases, present);
      ErrorsOfAll(entries, path, first, rest, present);
    }
  }

  lemma {:induction false} HeadErrorIsLeft(entry: Entry, path: Path, aliases: Aliases, present: set<string>)
    requires entry.key in present && (entry.value.Mapping? ==> WellFormed(entry.value.entries))
    ensures var r := RewriteEntry(entry, path, aliases, present); ErrorsStay(r.found, path, r.entries)
    decreases entry, 0
  {
    var r := RewriteEntry(entry, path, aliases, present);
    var childPath := path + [entry.key];
    if entry.key != MERGE_KEY {
      if IsOld(aliases, childPath) {
        assert childPath[|path|..] == [entry.key];
        if r.entries[0].key == entry.key {
          assert HasPath(r.entries, [entry.key]);
        }
      } else if entry.value.Mapping? {
        var inner := entry.value.entries;
        ErrorsAreLeft(inner, childPath, aliases, KeySet(inner));
        DiagnosticsAreAboutKeys(inner, childPath, aliases, KeySet(inner));
        ErrorsInside(r.found, path, r.entries[0]);
      }
    }
  }

  lemma ErrorsInside(found: seq<Diagnostic>, path: Path, after: Entry)
    requires after.key != MERGE_KEY && after.value.Mapping?
    requires ErrorsStay(found, path + [after.key], after.value.entries)
    requires forall d | d in found :: |d.path| > |path| + 1 && d.path[..|path| + 1] == path + [after.key]
    ensures ErrorsStay(found, path, [after])
  {
    forall d | d in found
      ensures d.severity.Error? <==> HasPath([after], d.path[|path|..])
    {
      var p := d.path[|path|..];
      PathBelow(path, after.key, d.path);
      assert p[1..] == d.path[|path| + 1..];
      PathInTail([after], p);
      assert [after][1..] == [];
    }
  }

  lemma ErrorsOfAll(entries: seq<Entry>, path: Path, first: Rewrite, rest: Rewrite, present: set<string>)
    requires entries != [] && KeySet(entries) <= present && |first.entries| == 1
    requires ErrorsStay(first.found, path, first.entries) && ErrorsStay(rest.found, path, rest.entries)
    requires AboutKeys(first.found, path, {entries[0].key}) && AboutKeys(rest.found, path, KeySet(entries[1..]))
    requires KeySet(entries) == {entries[0].key} + KeySet(entries[1..]) && entries[0].key !in KeySet(entries[1..])
    requires first.entries[0].key == entries[0].key || first.entries[0].key !in present
    requires forall e | e in rest.entries :: e.key in KeySet(entries[1..]) || e.key !in present
    ensures ErrorsStay(first.found + rest.found, path, first.entries + rest.entries)
  {
    var after := first.entries + rest.entries;
    assert after[0] == first.entries[0] && after[1..] == rest.entries && first.entries[1..] == [];
    forall d | d in first.found + rest.found
      ensures |d.path| > |path| && (d.severity.Error? <==> HasPath(after, d.path[|path|..]))
    {
      var p := d.path[|path|..];
      assert p[0] == d.path[|path|];
      PathInTail(after, p);
      PathInTail(first.entries, p);
      if d in first.found {
        assert !HasPath(rest.entries, p);
      }
    }
  }

  lemma {:induction false} ReportsOnce(entries: seq<Entry>, path: Path, aliases: Aliases, present: set<string>)
    requires WellFormed(entries)
    ensures DistinctPaths(RewriteEntries(entries, path, aliases, present).found)
    decreases entries
  {
    if entries != [] {
      var first := RewriteEntry(entries[0], path, aliases, present);
      TailKeys(entries);
      HeadReportsOnce(entries[0], path, aliases, present);
      HeadIsAboutItsKey(entries[0], path, aliases, present);
      ReportsOnce(entries[1..], path, aliases, present + KeySet(first.entries));
      DiagnosticsAreAboutKeys(entries[1..], path, aliases, present + KeySet(first.entries));
      ApartFrom(first.found, RewriteEntries(entries[1..], path, aliases, present + KeySet(first.entries)).found, path,
                {entries[0].key}, KeySet(entries[1..]));
    }
  }

  lemma {:induction false} HeadReportsOnce(entry: Entry, path: Path, aliases: Aliases, present: set<string>)
    requires entry.value.Mapping? ==> WellFormed(entry.value.entries)
    ensures DistinctPaths(RewriteEntry(entry, path, aliases, present).found)
    decreases entry, 0
  {
    if entry.value.Mapping? {
      ReportsOnce(entry.value.entries, path + [entry.key], aliases, KeySet(entry.value.entries));
    }
  }
}
