/** One page of the plugin listing as the registry reads it from the database
    (internal/adapters/registry/registry.go).  The statement is kept as data: clauses
    that name their arguments by placeholder number, beside the argument list. */
module Listing {
  import opened Sql
  import opened Strings

  datatype Key = Key(group: string, name: string, version: string)

  datatype Row = Row(key: Key, tags: seq<string>)

  /** The table: group, name and version are its uniqueness key. */
  type Table = map<Key, seq<string>>

  function Rows(table: Table): set<Row> {
    set key | key in table :: Row(key, table[key])
  }

  datatype Filter = Filter(group: string, name: string, version: string, tags: seq<string>)

  /** An empty part of the filter asks for nothing. */
  predicate Matches(filter: Filter, row: Row) {
    && (filter.group == "" || row.key.group == filter.group)
    && (filter.name == "" || row.key.name == filter.name)
    && (filter.version == "" || row.key.version == filter.version)
    && forall t | t in filter.tags :: t == "" || t in row.tags
  }

  /** A row is left out exactly if a part that is asked for differs, or a tag is missing. */
  lemma LeftOutIff(filter: Filter, row: Row)
    ensures !Matches(filter, row) <==>
            || filter.group !in {"", row.key.group} || filter.name !in {"", row.key.name}
            || filter.version !in {"", row.key.version} || exists t :: t in filter.tags && t != "" && t !in row.tags
  {
  }

  // ----- the order -----

  /** The collation of the database, which orders text. */
  type Collation = (string, string) -> bool

  ghost predicate StrictOrder(lt: Collation) {
    && (forall a :: !lt(a, a))
    && (forall a, b :: a != b ==> lt(a, b) || lt(b, a))
    && (forall a, b, c :: lt(a, b) && lt(b, c) ==> lt(a, c))
  }

  /** The comparison of rows, column by column. */
  predicate KeyLess(lt: Collation, a: Key, b: Key) {
    if a.group != b.group then lt(a.group, b.group)
    else if a.name != b.name then lt(a.name, b.name)
    else lt(a.version, b.version)
  }

  /** Groups do not descend, nor names within a group, nor versions within a name; and of
      two equal groups and names the version tells. */
  predicate GroupedInOrder(lt: Collation, a: Key, b: Key) {
    && (a.group == b.group || lt(a.group, b.group))
    && (a.group == b.group ==> a.name == b.name || lt(a.name, b.name))
    && (a.group == b.group && a.name == b.name ==> lt(a.version, b.version))
  }

  ghost predicate OrdersKeys(lt: Collation) {
    && (forall a :: !KeyLess(lt, a, a))
    && (forall a, b :: a != b ==> KeyLess(lt, a, b) || KeyLess(lt, b, a))
    && (forall a, b, c :: KeyLess(lt, a, b) && KeyLess(lt, b, c) ==> KeyLess(lt, a, c))
  }

  lemma KeysAreOrdered(lt: Collation)
    requires StrictOrder(lt)
    ensures OrdersKeys(lt)
  {
    forall a: Key, b: Key, c: Key | KeyLess(lt, a, b) && KeyLess(lt, b, c)
      ensures KeyLess(lt, a, c)
    {
      if a.group == b.group == c.group {
        if a.name == b.name == c.name {
          assert lt(a.version, b.version) && lt(b.version, c.version);
        }
      }
    }
  }

  ghost predicate Ascending(lt: Collation, rows: seq<Row>) {
    forall i, k | 0 <= i < k < |rows| :: KeyLess(lt, rows[i].key, rows[k].key)
  }

  /** rows are the first limit of all, in order; every one of them without a limit. */
  ghost predicate IsCut(lt: Collation, all: set<Row>, limit: Option<nat>, rows: seq<Row>) {
    && Ascending(lt, rows)
    && (forall r | r in rows :: r in all)
    && (limit.Some? ==> |rows| <= limit.value)
    && (forall r | r in all :: r in rows || (limit.Some? && |rows| == limit.value && Beyond(lt, rows, r)))
  }

  ghost predicate Beyond(lt: Collation, rows: seq<Row>, r: Row) {
    forall x | x in rows :: KeyLess(lt, x.key, r.key)
  }

  /** Order and contents decide the rows: nothing is left to the database. */
  lemma {:induction false} CutIsUnique(lt: Collation, all: set<Row>, limit: Option<nat>, a: seq<Row>, b: seq<Row>)
    requires OrdersKeys(lt)
    requires IsCut(lt, all, limit, a) && IsCut(lt, all, limit, b)
    ensures a == b
    decreases |a|
  {
    EmptyCut(lt, all, limit, a);
    EmptyCut(lt, all, limit, b);
    if a != [] {
      SameFirst(lt, all, limit, a, b);
      CutTail(lt, all, limit, a);
      CutTail(lt, all, limit, b);
      CutIsUnique(lt, all - {a[0]}, if limit.Some? then Some(limit.value - 1) else None, a[1..], b[1..]);
      assert a == [a[0]] + a[1..] && b == [b[0]] + b[1..];
    }
  }

  lemma EmptyCut(lt: Collation, all: set<Row>, limit: Option<nat>, rows: seq<Row>)
    requires IsCut(lt, all, limit, rows)
    ensures rows == [] <==> all == {} || limit == Some(0)
  {
    if rows != [] {
      assert rows[0] in all;
    }
  }

  lemma SameFirst(lt: Collation, all: set<Row>, limit: Option<nat>, a: seq<Row>, b: seq<Row>)
    requires OrdersKeys(lt)
    requires IsCut(lt, all, limit, a) && IsCut(lt, all, limit, b) && a != [] && b != []
    ensures a[0] == b[0]
  {
    assert a[0] in a && b[0] in b;
    FirstIsLeast(lt, all, limit, a, b[0]);
    FirstIsLeast(lt, all, limit, b, a[0]);
  }

  lemma FirstIsLeast(lt: Collation, all: set<Row>, limit: Option<nat>, rows: seq<Row>, r: Row)
    requires OrdersKeys(lt)
    requires IsCut(lt, all, limit, rows) && rows != [] && r in all
    ensures r == rows[0] || KeyLess(lt, rows[0].key, r.key)
  {
    if r in rows {
      var i :| 0 <= i < |rows| && rows[i] == r;
    } else {
      assert rows[0] in rows;
    }
  }

  lemma CutTail(lt: Collation, all: set<Row>, limit: Option<nat>, rows: seq<Row>)
    requires OrdersKeys(lt)
    requires IsCut(lt, all, limit, rows) && rows != []
    ensures limit.Some? ==> limit.value > 0
    ensures IsCut(lt, all - {rows[0]}, if limit.Some? then Some(limit.value - 1) else None, rows[1..])
  {
    var rest := rows[1..];
    assert rows == [rows[0]] + rest;
    forall r | r in rest
      ensures r in all - {rows[0]}
    {
      var i :| 0 <= i < |rest| && rest[i] == r;
      assert KeyLess(lt, rows[0].key, rows[i + 1].key);
    }
    forall r | r in all - {rows[0]} && r !in rest
      ensures limit.Some? && |rest| == limit.value - 1 && Beyond(lt, rest, r)
    {
      assert r !in rows;
    }
  }

  /** Dropping the rows past a smaller limit. */
  lemma CutShorter(lt: Collation, all: set<Row>, limit: Option<nat>, rows: seq<Row>, size: nat)
    requires IsCut(lt, all, limit, rows) && (limit.Some? ==> size <= limit.value)
    ensures IsCut(lt, all, Some(size), if size < |rows| then rows[..size] else rows)
  {
    if size < |rows| {
      var cut := rows[..size];
      assert rows == cut + rows[size..];
      forall r | r in all && r !in cut
        ensures Beyond(lt, cut, r)
      {
        if r in rows {
          LaterIsBeyond(lt, rows, size, r);
        }
      }
    }
  }

  lemma LaterIsBeyond(lt: Collation, rows: seq<Row>, size: nat, r: Row)
    requires Ascending(lt, rows) && size <= |rows| && r in rows[size..]
    ensures Beyond(lt, rows[..size], r)
  {
    var k :| 0 <= k < |rows| - size && rows[size..][k] == r;
    forall x | x in rows[..size]
      ensures KeyLess(lt, x.key, r.key)
    {
      var i :| 0 <= i < size && rows[..size][i] == x;
      assert KeyLess(lt, rows[i].key, rows[size + k].key);
    }
  }

  // ----- the statement -----

  datatype Clause =
    | GroupIs(arg: nat)
    | NameIs(arg: nat)
    | VersionIs(arg: nat)
    | TagsContain(arg: nat)
    | KeyAfter(groupArg: nat, nameArg: nat, versionArg: nat)

  /** select ... where every clause holds order by group_name, name, version [limit $n]. */
  datatype Query = Query(clauses: seq<Clause>, limit: Option<nat>)

  predicate ClauseHolds(lt: Collation, clause: Clause, args: seq<Arg>, row: Row) {
    match clause
    case GroupIs(n) => Bound(args, n) == Some(Text(row.key.group))
    case NameIs(n) => Bound(args, n) == Some(Text(row.key.name))
    case VersionIs(n) => Bound(args, n) == Some(Text(row.key.version))
    case TagsContain(n) =>
      var tags := Bound(args, n);
      tags.Some? && tags.value.TextArray? && forall t | t in tags.value.items :: t in row.tags
    case KeyAfter(g, n, v) =>
      var group, name, version := Bound(args, g), Bound(args, n), Bound(args, v);
      && group.Some? && group.value.Text? && name.Some? && name.value.Text? && version.Some? && version.value.Text?
      && KeyLess(lt, Key(group.value.text, name.value.text, version.value.text), row.key)
  }

  predicate Selects(lt: Collation, clauses: seq<Clause>, args: seq<Arg>, row: Row) {
    forall i | 0 <= i < |clauses| :: ClauseHolds(lt, clauses[i], args, row)
  }

  function ClausePlaceholders(clause: Clause): seq<nat> {
    match clause
    case KeyAfter(g, n, v) => [g, n, v]
    case _ => [clause.arg]
  }

  /** The numbers of the placeholders, as the statement spells them left to right. */
  function Placeholders(clauses: seq<Clause>): seq<nat> {
    if clauses == [] then []
    else Placeholders(clauses[..|clauses| - 1]) + ClausePlaceholders(clauses[|clauses| - 1])
  }

  /** Sending more arguments changes nothing for clauses that are already bound. */
  lemma {:induction false} MoreArguments(lt: Collation, clauses: seq<Clause>, args: seq<Arg>, more: seq<Arg>, row: Row)
    requires Placeholders(clauses) == OneTo(|args|)
    ensures Selects(lt, clauses, args + more, row) <==> Selects(lt, clauses, args, row)
  {
    forall i | 0 <= i < |clauses|
      ensures ClauseHolds(lt, clauses[i], args + more, row) <==> ClauseHolds(lt, clauses[i], args, row)
    {
      forall n | n in ClausePlaceholders(clauses[i])
        ensures Bound(args + more, n) == Bound(args, n)
      {
        PlaceholderOf(clauses, i, n);
        assert n in OneTo(|args|);
      }
      if clauses[i].KeyAfter? {
        assert clauses[i].groupArg in ClausePlaceholders(clauses[i]);
        assert clauses[i].nameArg in ClausePlaceholders(clauses[i]);
        assert clauses[i].versionArg in ClausePlaceholders(clauses[i]);
      } else {
        assert clauses[i].arg in ClausePlaceholders(clauses[i]);
      }
    }
  }

  lemma {:induction false} PlaceholderOf(clauses: seq<Clause>, i: nat, n: nat)
    requires i < |clauses| && n in ClausePlaceholders(clauses[i])
    ensures n in Placeholders(clauses)
    decreases |clauses|
  {
    if i < |clauses| - 1 {
      PlaceholderOf(clauses[..|clauses| - 1], i, n);
    }
  }

  /** One more clause over one more argument, or over three. */
  lemma AddClause(lt: Collation, clauses: seq<Clause>, args: seq<Arg>, clause: Clause, more: seq<Arg>)
    requires Placeholders(clauses) == OneTo(|args|)
    requires ClausePlaceholders(clause) == OneTo(|args| + |more|)[|args|..]
    ensures Placeholders(clauses + [clause]) == OneTo(|args + more|)
    ensures forall row :: Selects(lt, clauses + [clause], args + more, row) <==>
                          Selects(lt, clauses, args, row) && ClauseHolds(lt, clause, args + more, row)
  {
    var longer := clauses + [clause];
    assert longer[..|longer| - 1] == clauses;
    assert OneTo(|args|) + OneTo(|args| + |more|)[|args|..] == OneTo(|args + more|);
    forall row
      ensures Selects(lt, longer, args + more, row) <==>
              Selects(lt, clauses, args, row) && ClauseHolds(lt, clause, args + more, row)
    {
      MoreArguments(lt, clauses, args, more, row);
      assert longer[|clauses|] == clause;
      if Selects(lt, longer, args + more, row) {
        forall i | 0 <= i < |clauses|
          ensures ClauseHolds(lt, clauses[i], args + more, row)
        {
          assert longer[i] == clauses[i];
        }
      }
    }
  }

  // ----- assembling the statement -----

  datatype Page = Page(size: int, after: Option<Key>)

  /** What a page may hold: the rows the filter asks for, after the key if there is one. */
  predicate Wanted(lt: Collation, filter: Filter, after: Option<Key>, row: Row) {
    Matches(filter, row) && (after.Some? ==> KeyLess(lt, after.value, row.key))
  }

  /** The statement spells its placeholders 1, 2, ... up to the last argument, and
      over these arguments it means the page. */
  ghost predicate Asks(lt: Collation, query: Query, args: seq<Arg>, filter: Filter, page: Page) {
    && Placeholders(query.clauses) + (if query.limit.Some? then [query.limit.value] else []) == OneTo(|args|)
    && (forall row :: Selects(lt, query.clauses, args, row) <==> Wanted(lt, filter, page.after, row))
    && (if page.size > 0 then query.limit.Some? && Bound(args, query.limit.value) == Some(Number(page.size))
        else query.limit.None?)
  }

  method NonEmptyTags(tags: seq<string>) returns (nonEmpty: seq<string>)
    ensures forall t :: t in nonEmpty <==> t in tags && t != ""
  {
    nonEmpty := [];
    for i := 0 to |tags|
      invariant forall t :: t in nonEmpty <==> t in tags[..i] && t != ""
    {
      assert tags[..i + 1] == tags[..i] + [tags[i]];
      if tags[i] != "" {
        nonEmpty := nonEmpty + [tags[i]];
      }
    }
    assert tags[..|tags|] == tags;
  }

  /** The clauses so far mean the part of the filter that has been looked at. */
  ghost predicate MeansSoFar(lt: Collation, clauses: seq<Clause>, args: seq<Arg>, seen: Filter) {
    && Placeholders(clauses) == OneTo(|args|)
    && forall row :: Selects(lt, clauses, args, row) <==> Matches(seen, row)
  }

  lemma Step(lt: Collation, clauses: seq<Clause>, args: seq<Arg>, seen: Filter, clause: Clause, arg: Arg, next: Filter)
    requires MeansSoFar(lt, clauses, args, seen)
    requires ClausePlaceholders(clause) == [|args| + 1]
    requires forall row :: Matches(next, row) <==> Matches(seen, row) && ClauseHolds(lt, clause, args + [arg], row)
    ensures MeansSoFar(lt, clauses + [clause], args + [arg], next)
  {
    AddClause(lt, clauses, args, clause, [arg]);
  }

  /** An empty part of the filter adds nothing. */
  function WithClause(clauses: seq<Clause>, clause: Clause, part: string): seq<Clause> {
    if part == "" then clauses else clauses + [clause]
  }

  function WithText(args: seq<Arg>, part: string): seq<Arg> {
    if part == "" then args else args + [Text(part)]
  }

  lemma GroupStep(lt: Collation, clauses: seq<Clause>, args: seq<Arg>, seen: Filter, group: string)
    requires MeansSoFar(lt, clauses, args, seen) && seen.group == ""
    ensures MeansSoFar(lt, WithClause(clauses, GroupIs(|args| + 1), group), WithText(args, group),
                       seen.(group := group))
  {
    if group == "" {
      assert seen.(group := group) == seen;
    } else {
      Step(lt, clauses, args, seen, GroupIs(|args| + 1), Text(group), seen.(group := group));
    }
  }

  lemma NameStep(lt: Collation, clauses: seq<Clause>, args: seq<Arg>, seen: Filter, name: string)
    requires MeansSoFar(lt, clauses, args, seen) && seen.name == ""
    ensures MeansSoFar(lt, WithClause(clauses, NameIs(|args| + 1), name), WithText(args, name), seen.(name := name))
  {
    if name == "" {
      assert seen.(name := name) == seen;
    } else {
      Step(lt, clauses, args, seen, NameIs(|args| + 1), Text(name), seen.(name := name));
    }
  }

  lemma VersionStep(lt: Collation, clauses: seq<Clause>, args: seq<Arg>, seen: Filter, version: string)
    requires MeansSoFar(lt, clauses, args, seen) && seen.version == ""
    ensures MeansSoFar(lt, WithClause(clauses, VersionIs(|args| + 1), version), WithText(args, version),
                       seen.(version := version))
  {
    if version == "" {
      assert seen.(version := version) == seen;
    } else {
      Step(lt, clauses, args, seen, VersionIs(|args| + 1), Text(version), seen.(version := version));
    }
  }

  lemma TagStep(lt: Collation, clauses: seq<Clause>, args: seq<Arg>, seen: Filter, filter: Filter,
                nonEmpty: seq<string>)
    requires MeansSoFar(lt, clauses, args, seen) && seen == filter.(tags := [])
    requires forall t :: t in nonEmpty <==> t in filter.tags && t != ""
    ensures MeansSoFar(lt, clauses + [TagsContain(|args| + 1)], args + [TextArray(nonEmpty)], filter)
    ensures nonEmpty == [] ==> MeansSoFar(lt, clauses, args, filter)
  {
    Step(lt, clauses, args, seen, TagsContain(|args| + 1), TextArray(nonEmpty), filter);
    if nonEmpty == [] {
      forall row
        ensures Matches(filter, row) <==> Matches(seen, row)
      {
        assert forall t | t in filter.tags :: t == "" || t in nonEmpty;
      }
    }
  }

  ghost predicate MeansPage(lt: Collation, clauses: seq<Clause>, args: seq<Arg>, filter: Filter, after: Option<Key>) {
    && Placeholders(clauses) == OneTo(|args|)
    && forall row :: Selects(lt, clauses, args, row) <==> Wanted(lt, filter, after, row)
  }

  lemma KeyStep(lt: Collation, clauses: seq<Clause>, args: seq<Arg>, filter: Filter, after: Key)
    requires MeansSoFar(lt, clauses, args, filter)
    ensures MeansPage(lt, clauses + [KeyAfter(|args| + 1, |args| + 2, |args| + 3)], args + KeyArgs(after), filter,
                      Some(after))
  {
    var clause := KeyAfter(|args| + 1, |args| + 2, |args| + 3);
    assert OneTo(|args| + 3)[|args|..] == [|args| + 1, |args| + 2, |args| + 3];
    AddClause(lt, clauses, args, clause, KeyArgs(after));
    forall row
      ensures ClauseHolds(lt, clause, args + KeyArgs(after), row) <==> KeyLess(lt, after, row.key)
    {
      KeyClause(lt, args, after, row);
    }
  }

  function KeyArgs(key: Key): seq<Arg> {
    [Text(key.group), Text(key.name), Text(key.version)]
  }

  lemma KeyClause(lt: Collation, args: seq<Arg>, after: Key, row: Row)
    ensures ClauseHolds(lt, KeyAfter(|args| + 1, |args| + 2, |args| + 3), args + KeyArgs(after), row) <==>
            KeyLess(lt, after, row.key)
  {
    var all := args + KeyArgs(after);
    assert all[|args|] == Text(after.group) && all[|args| + 1] == Text(after.name) &&
           all[|args| + 2] == Text(after.version);
  }

  lemma LimitStep(lt: Collation, clauses: seq<Clause>, args: seq<Arg>, filter: Filter, page: Page)
    requires MeansPage(lt, clauses, args, filter, page.after)
    ensures page.size > 0 ==> Asks(lt, Query(clauses, Some(|args| + 1)), args + [Number(page.size)], filter, page)
    ensures page.size <= 0 ==> Asks(lt, Query(clauses, None), args, filter, page)
  {
    forall row
      ensures Selects(lt, clauses, args + [Number(page.size)], row) <==> Selects(lt, clauses, args, row)
    {
      MoreArguments(lt, clauses, args, [Number(page.size)], row);
    }
  }

  method BuildQuery(ghost lt: Collation, filter: Filter, page: Page) returns (query: Query, args: seq<Arg>)
    ensures Asks(lt, query, args, filter, page)
  {
    var clauses: seq<Clause>;
    var argID;
    clauses, args, argID := ColumnClauses(lt, filter);
    clauses, args, argID := TagClause(lt, filter, clauses, args, argID);

    if page.after.Some? {
      var groupArg := argID;
      var nameArg := groupArg + 1;
      var versionArg := nameArg + 1;
      var after := page.after.value;
      KeyStep(lt, clauses, args, filter, after);
      clauses := clauses + [KeyAfter(groupArg, nameArg, versionArg)];
      args := args + KeyArgs(after);
      argID := versionArg + 1;
    }
    assert MeansPage(lt, clauses, args, filter, page.after);

    LimitStep(lt, clauses, args, filter, page);
    query := Query(clauses, None);
    if page.size > 0 {
      query := Query(clauses, Some(argID));
      args := args + [Number(page.size)];
    }
  }

  method TextClause(before: seq<Clause>, sent: seq<Arg>, next: nat, clause: Clause, part: string)
    returns (clauses: seq<Clause>, args: seq<Arg>, argID: nat)
    requires next == |sent| + 1
    ensures clauses == WithClause(before, clause, part) && args == WithText(sent, part) && argID == |args| + 1
  {
    clauses, args, argID := before, sent, next;
    if part != "" {
      clauses := clauses + [clause];
      args := args + [Text(part)];
      argID := argID + 1;
    }
  }

  method ColumnClauses(ghost lt: Collation, filter: Filter) returns (clauses: seq<Clause>, args: seq<Arg>, argID: nat)
    ensures MeansSoFar(lt, clauses, args, filter.(tags := [])) && argID == |args| + 1
  {
    clauses, args, argID := [], [], 1;
    ghost var seen := Filter("", "", "", []);
    assert MeansSoFar(lt, clauses, args, seen);

    GroupStep(lt, clauses, args, seen, filter.group);
    clauses, args, argID := TextClause(clauses, args, argID, GroupIs(argID), filter.group);
    seen := seen.(group := filter.group);

    NameStep(lt, clauses, args, seen, filter.name);
    clauses, args, argID := TextClause(clauses, args, argID, NameIs(argID), filter.name);
    seen := seen.(name := filter.name);

    VersionStep(lt, clauses, args, seen, filter.version);
    clauses, args, argID := TextClause(clauses, args, argID, VersionIs(argID), filter.version);
    assert seen.(version := filter.version) == filter.(tags := []);
  }

  method TagClause(ghost lt: Collation, filter: Filter, before: seq<Clause>, sent: seq<Arg>, next: nat)
    returns (clauses: seq<Clause>, args: seq<Arg>, argID: nat)
    requires MeansSoFar(lt, before, sent, filter.(tags := [])) && next == |sent| + 1
    ensures MeansSoFar(lt, clauses, args, filter) && argID == |args| + 1
  {
    clauses, args, argID := before, sent, next;
    if |filter.tags| > 0 {
      var nonEmpty := NonEmptyTags(filter.tags);
      TagStep(lt, clauses, args, filter.(tags := []), filter, nonEmpty);
      if |nonEmpty| > 0 {
        clauses := clauses + [TagsContain(argID)];
        args := args + [TextArray(nonEmpty)];
        argID := argID + 1;
      }
    } else {
      assert filter.(tags := []) == filter;
    }
  }

  // ----- running it -----

  function Selected(lt: Collation, table: Table, query: Query, args: seq<Arg>): set<Row> {
    set row | row in Rows(table) && Selects(lt, query.clauses, args, row)
  }

  ghost function Limit(query: Query, args: seq<Arg>): Option<nat> {
    if query.limit.None? then None
    else
      match Bound(args, query.limit.value)
      case Some(Number(n)) => if n >= 0 then Some(n) else None
      case _ => None
  }

  ghost function WantedRows(lt: Collation, table: Table, filter: Filter, after: Option<Key>): set<Row> {
    set row | row in Rows(table) && Wanted(lt, filter, after, row)
  }

  lemma InsertKeepsOrder(lt: Collation, rows: seq<Row>, i: nat, row: Row)
    requires OrdersKeys(lt) && Ascending(lt, rows) && i <= |rows|
    requires forall k | 0 <= k < i :: KeyLess(lt, rows[k].key, row.key)
    requires i < |rows| ==> KeyLess(lt, row.key, rows[i].key)
    ensures Ascending(lt, rows[..i] + [row] + rows[i..])
  {
    forall k | i <= k < |rows|
      ensures KeyLess(lt, row.key, rows[k].key)
    {
    }
  }

  /** Puts one more row of the table in its place. */
  method Insert(lt: Collation, table: Table, ghost all: set<Row>, rows: seq<Row>, row: Row) returns (longer: seq<Row>)
    requires OrdersKeys(lt) && IsCut(lt, all, None, rows)
    requires row !in all && all + {row} <= Rows(table)
    ensures IsCut(lt, all + {row}, None, longer)
  {
    var i := 0;
    while i < |rows| && KeyLess(lt, rows[i].key, row.key)
      invariant 0 <= i <= |rows|
      invariant forall k | 0 <= k < i :: KeyLess(lt, rows[k].key, row.key)
    {
      i := i + 1;
    }
    if i < |rows| {
      assert rows[i] in all;
      assert rows[i].key != row.key;
    }
    InsertKeepsOrder(lt, rows, i, row);
    longer := rows[..i] + [row] + rows[i..];
    forall r
      ensures r in longer <==> r in rows || r == row
    {
      assert rows == rows[..i] + rows[i..];
    }
  }

  /** The database, which meets the selected rows in any order and sorts them. */
  method Execute(lt: Collation, table: Table, query: Query, args: seq<Arg>) returns (rows: seq<Row>)
    requires StrictOrder(lt)
    ensures IsCut(lt, Selected(lt, table, query, args), Limit(query, args), rows)
  {
    KeysAreOrdered(lt);
    rows := [];
    ghost var all := Selected(lt, table, query, args);
    var rest := Selected(lt, table, query, args);
    while rest != {}
      invariant rest <= all
      invariant IsCut(lt, all - rest, None, rows)
      decreases |rest|
    {
      var row :| row in rest;
      rows := Insert(lt, table, all - rest, rows, row);
      assert all - (rest - {row}) == (all - rest) + {row};
      rest := rest - {row};
    }
    assert all - rest == all;
    if query.limit.Some? {
      var bound := Bound(args, query.limit.value);
      if bound.Some? && bound.value.Number? && bound.value.n >= 0 {
        CutShorter(lt, all, None, rows, bound.value.n);
        if bound.value.n < |rows| {
          rows := rows[..bound.value.n];
        }
      }
    }
  }

  /** Registry.List: whatever the order in which the database meets the rows, the
      page is the wanted rows, sorted, cut at the size. */
  method List(lt: Collation, table: Table, filter: Filter, page: Page) returns (rows: seq<Row>)
    requires StrictOrder(lt)
    ensures IsCut(lt, WantedRows(lt, table, filter, page.after), if page.size > 0 then Some(page.size) else None, rows)
    ensures forall i, k | 0 <= i < k < |rows| :: GroupedInOrder(lt, rows[i].key, rows[k].key)
    ensures forall r | r in rows :: r.key in table && table[r.key] == r.tags
    ensures forall r | r in rows :: filter.group in {"", r.key.group} && filter.name in {"", r.key.name}
    ensures forall r | r in rows :: filter.version in {"", r.key.version} &&
                                    forall t | t in filter.tags && t != "" :: t in r.tags
    ensures page.after.Some? ==> forall r | r in rows :: GroupedInOrder(lt, page.after.value, r.key)
  {
    var query, args := BuildQuery(lt, filter, page);
    assert Selected(lt, table, query, args) == WantedRows(lt, table, filter, page.after);
    rows := Execute(lt, table, query, args);
  }
}
