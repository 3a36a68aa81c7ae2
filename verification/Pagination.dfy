/** The listing as a client sees it: a walk over pages, each read from the table as it
    is at that moment (sdk/client.go, internal/core/core.go).  A page token is the key
    it encodes; the empty token is None. */
module Pagination {
  import opened Strings
  import opened Listing

  const DEFAULT_PAGE_SIZE: nat := 100
  const MAX_PAGE_SIZE: nat := 1000

  datatype PluginList = PluginList(plugins: seq<Row>, next: Option<Key>)

  /** list is the first size wanted rows, and says where to go on exactly if there
      are more: after its own last row. */
  ghost predicate IsServed(lt: Collation, wanted: set<Row>, size: nat, list: PluginList) {
    && IsCut(lt, wanted, Some(size), list.plugins)
    && (list.next.None? <==> forall r | r in wanted :: r in list.plugins)
    && (list.next.Some? ==> |list.plugins| == size && size > 0 && list.next.value == list.plugins[size - 1].key)
  }

  lemma ProbeTells(lt: Collation, wanted: set<Row>, size: nat, probe: seq<Row>)
    requires IsCut(lt, wanted, Some(size + 1), probe)
    requires OrdersKeys(lt)
    ensures |probe| > size <==> exists r :: r in wanted && r !in probe[..if size < |probe| then size else |probe|]
  {
    if |probe| > size {
      var extra := probe[size];
      assert extra in probe;
      forall i | 0 <= i < size
        ensures probe[i] != extra
      {
        assert KeyLess(lt, probe[i].key, probe[size].key);
      }
      assert extra !in probe[..size];
    } else {
      assert probe[..|probe|] == probe;
    }
  }

  /** Core.ListPlugins: one row past the page tells whether there is a next one. */
  method ListPage(lt: Collation, table: Table, filter: Filter, page: Page) returns (list: PluginList)
    requires StrictOrder(lt)
    ensures var wanted := WantedRows(lt, table, filter, page.after);
            && (1 <= page.size <= 1000 ==> IsServed(lt, wanted, page.size, list))
            && (page.size > 1000 ==> IsServed(lt, wanted, 1000, list))
            && (page.size <= 0 ==> IsServed(lt, wanted, 100, list))
  {
    var size := page.size;
    if size <= 0 {
      size := DEFAULT_PAGE_SIZE;
    }
    if size > MAX_PAGE_SIZE {
      size := MAX_PAGE_SIZE;
    }
    KeysAreOrdered(lt);
    ghost var wanted := WantedRows(lt, table, filter, page.after);
    var plugins := List(lt, table, filter, Page(size + 1, page.after));
    CutShorter(lt, wanted, Some(size + 1), plugins, size);
    ProbeTells(lt, wanted, size, plugins);
    assert plugins[..|plugins|] == plugins;

    var next: Option<Key> := None;
    if |plugins| > size {
      plugins := plugins[..size];
      var last := plugins[size - 1];
      next := Some(last.key);
    }
    list := PluginList(plugins, next);
  }

  // ----- a walk -----

  /** Where page i starts: after the key the page before it named. */
  function After(pages: seq<PluginList>, i: nat): Option<Key>
    requires i <= |pages|
  {
    if i == 0 then None else pages[i - 1].next
  }

  /** Page i is what snapshot i answers. */
  ghost predicate ServedAt(lt: Collation, snapshots: seq<Table>, filter: Filter, pages: seq<PluginList>, i: nat) {
    && i < |snapshots| && i < |pages|
    && IsServed(lt, WantedRows(lt, snapshots[i], filter, After(pages, i)), DEFAULT_PAGE_SIZE, pages[i])
  }

  /** Page i was read from snapshot i, and only the last may have no successor. */
  ghost predicate IsWalk(lt: Collation, snapshots: seq<Table>, filter: Filter, pages: seq<PluginList>) {
    && |pages| <= |snapshots|
    && (forall i: nat | i < |pages| :: ServedAt(lt, snapshots, filter, pages, i))
    && (forall i | 0 <= i < |pages| - 1 :: pages[i].next.Some?)
  }

  function Collected(pages: seq<PluginList>): seq<Row> {
    if pages == [] then [] else Collected(pages[..|pages| - 1]) + pages[|pages| - 1].plugins
  }

  lemma WalkPrefix(lt: Collation, snapshots: seq<Table>, filter: Filter, pages: seq<PluginList>)
    requires IsWalk(lt, snapshots, filter, pages) && pages != []
    ensures IsWalk(lt, snapshots, filter, pages[..|pages| - 1])
    ensures After(pages, |pages| - 1) == After(pages[..|pages| - 1], |pages| - 1)
    ensures |pages| > 1 ==> After(pages, |pages| - 1).Some?
  {
    var before := pages[..|pages| - 1];
    forall i: nat | i < |before|
      ensures ServedAt(lt, snapshots, filter, before, i)
    {
      assert ServedAt(lt, snapshots, filter, pages, i);
      assert After(before, i) == After(pages, i);
    }
  }

  /** Every row so far is at or below the key the walk goes on after. */
  ghost predicate UpTo(lt: Collation, rows: seq<Row>, last: Key) {
    forall r | r in rows :: r.key == last || KeyLess(lt, r.key, last)
  }

  lemma PageUpTo(lt: Collation, wanted: set<Row>, list: PluginList)
    requires IsServed(lt, wanted, DEFAULT_PAGE_SIZE, list) && list.next.Some?
    ensures UpTo(lt, list.plugins, list.next.value)
  {
    forall r | r in list.plugins
      ensures r.key == list.next.value || KeyLess(lt, r.key, list.next.value)
    {
      var i :| 0 <= i < |list.plugins| && list.plugins[i] == r;
    }
  }

  /** No row is returned twice, and none out of order, whatever happens to the table. */
  lemma {:induction false} WalkAscends(lt: Collation, snapshots: seq<Table>, filter: Filter, pages: seq<PluginList>)
    requires OrdersKeys(lt) && IsWalk(lt, snapshots, filter, pages)
    ensures Ascending(lt, Collected(pages))
    ensures After(pages, |pages|).Some? ==> UpTo(lt, Collected(pages), After(pages, |pages|).value)
    decreases |pages|
  {
    if pages != [] {
      var n := |pages| - 1;
      var before := Collected(pages[..n]);
      WalkPrefix(lt, snapshots, filter, pages);
      WalkAscends(lt, snapshots, filter, pages[..n]);
      var wanted := WantedRows(lt, snapshots[n], filter, After(pages, n));
      assert ServedAt(lt, snapshots, filter, pages, n);
      PageIsLater(lt, snapshots[n], filter, before, After(pages, n), pages[n].plugins);
      if pages[n].next.Some? {
        PageUpTo(lt, wanted, pages[n]);
        var last := pages[n].plugins[DEFAULT_PAGE_SIZE - 1];
        assert last in pages[n].plugins;
        assert last.key == pages[n].next.value;
      }
    }
  }

  lemma PageIsLater(lt: Collation, table: Table, filter: Filter, before: seq<Row>, after: Option<Key>,
                    plugins: seq<Row>)
    requires OrdersKeys(lt) && Ascending(lt, before) && Ascending(lt, plugins)
    requires if after.Some? then UpTo(lt, before, after.value) else before == []
    requires forall r | r in plugins :: r in WantedRows(lt, table, filter, after)
    ensures forall a, b | a in before && b in plugins :: KeyLess(lt, a.key, b.key)
    ensures Ascending(lt, before + plugins)
  {
    forall i, k | 0 <= i < |before| && 0 <= k < |plugins|
      ensures KeyLess(lt, before[i].key, plugins[k].key)
    {
      assert before[i] in before && plugins[k] in plugins;
    }
  }

  ghost predicate WasThere(snapshots: seq<Table>, filter: Filter, r: Row) {
    exists i :: 0 <= i < |snapshots| && r in Rows(snapshots[i]) && Matches(filter, r)
  }

  /** Every row returned was in the table when its page was read, and matched. */
  lemma {:induction false} WalkIsSound(lt: Collation, snapshots: seq<Table>, filter: Filter, pages: seq<PluginList>,
                                       r: Row)
    requires IsWalk(lt, snapshots, filter, pages) && r in Collected(pages)
    ensures WasThere(snapshots[..|pages|], filter, r)
    decreases |pages|
  {
    var n := |pages| - 1;
    WalkPrefix(lt, snapshots, filter, pages);
    if r in Collected(pages[..n]) {
      WalkIsSound(lt, snapshots, filter, pages[..n], r);
      var i :| 0 <= i < n && r in Rows(snapshots[..n][i]) && Matches(filter, r);
      assert snapshots[..|pages|][i] == snapshots[..n][i];
    } else {
      assert ServedAt(lt, snapshots, filter, pages, n);
      assert r in WantedRows(lt, snapshots[n], filter, After(pages, n));
      assert snapshots[..|pages|][n] == snapshots[n];
    }
  }

  /** A row of that key is in the table, and matches, in each of the tables. */
  ghost predicate AlwaysMatches(snapshots: seq<Table>, filter: Filter, key: Key) {
    forall i | 0 <= i < |snapshots| :: key in snapshots[i] && Matches(filter, Row(key, snapshots[i][key]))
  }

  /** rows is what a client may expect that reads a changing table page by page: in
      order without repeats, each row there and matching at some moment, and none
      missing that matched throughout. */
  ghost predicate ReadsThrough(lt: Collation, snapshots: seq<Table>, filter: Filter, rows: seq<Row>) {
    && Ascending(lt, rows)
    && (forall r | r in rows :: WasThere(snapshots, filter, r))
    && (forall key | AlwaysMatches(snapshots, filter, key) :: Returned(rows, key))
  }

  ghost predicate Returned(rows: seq<Row>, key: Key) {
    exists r :: r in rows && r.key == key
  }

  /** A key that matches throughout has been returned once the walk is past it. */
  lemma {:induction false} WalkFinds(lt: Collation, snapshots: seq<Table>, filter: Filter, pages: seq<PluginList>,
                                     key: Key)
    requires IsWalk(lt, snapshots, filter, pages) && pages != []
    requires OrdersKeys(lt) && AlwaysMatches(snapshots[..|pages|], filter, key)
    ensures Returned(Collected(pages), key)
            || (After(pages, |pages|).Some? && KeyLess(lt, After(pages, |pages|).value, key))
    decreases |pages|
  {
    var n := |pages| - 1;
    WalkPrefix(lt, snapshots, filter, pages);
    if n > 0 {
      assert snapshots[..n] == snapshots[..|pages|][..n];
      WalkFinds(lt, snapshots, filter, pages[..n], key);
    }
    if n > 0 && Returned(Collected(pages[..n]), key) {
      var r :| r in Collected(pages[..n]) && r.key == key;
      assert r in Collected(pages);
    } else {
      assert snapshots[n] == snapshots[..|pages|][n];
      assert ServedAt(lt, snapshots, filter, pages, n);
      PageFinds(lt, snapshots[n], filter, After(pages, n), pages[n], key);
      if Row(key, snapshots[n][key]) in pages[n].plugins {
        assert Row(key, snapshots[n][key]) in Collected(pages);
      }
    }
  }

  lemma PageFinds(lt: Collation, table: Table, filter: Filter, after: Option<Key>, list: PluginList, key: Key)
    requires IsServed(lt, WantedRows(lt, table, filter, after), DEFAULT_PAGE_SIZE, list)
    requires key in table && Matches(filter, Row(key, table[key])) && (after.Some? ==> KeyLess(lt, after.value, key))
    ensures Row(key, table[key]) in list.plugins || (list.next.Some? && KeyLess(lt, list.next.value, key))
  {
    var row := Row(key, table[key]);
    assert row in WantedRows(lt, table, filter, after);
    if row !in list.plugins {
      assert list.next.Some?;
      assert list.plugins[DEFAULT_PAGE_SIZE - 1] in list.plugins;
    }
  }

  // ----- the whole walk -----

  ghost predicate Finished(pages: seq<PluginList>) {
    pages != [] && pages[|pages| - 1].next.None?
  }

  lemma {:induction false} CollectedGrows(pages: seq<PluginList>, page: PluginList)
    ensures Collected(pages + [page]) == Collected(pages) + page.plugins
  {
    assert (pages + [page])[..|pages|] == pages;
  }

  lemma WalkGrows(lt: Collation, snapshots: seq<Table>, filter: Filter, pages: seq<PluginList>, page: PluginList)
    requires IsWalk(lt, snapshots, filter, pages) && |pages| < |snapshots|
    requires pages != [] ==> pages[|pages| - 1].next.Some?
    requires IsServed(lt, WantedRows(lt, snapshots[|pages|], filter, After(pages, |pages|)), DEFAULT_PAGE_SIZE, page)
    ensures IsWalk(lt, snapshots, filter, pages + [page])
  {
    var longer := pages + [page];
    forall i: nat | i < |longer|
      ensures ServedAt(lt, snapshots, filter, longer, i)
    {
      assert After(longer, i) == After(pages, i);
      if i < |pages| {
        assert ServedAt(lt, snapshots, filter, pages, i);
      }
    }
  }

  /** Client.ListPlugins.  Call i finds the table as snapshots[i]; a call past the last
      of them fails, which ends the walk with an error.  pages records the answers. */
  method ListPlugins(lt: Collation, snapshots: seq<Table>, filter: Filter)
    returns (listed: Option<seq<Row>>, call: nat, ghost pages: seq<PluginList>)
    requires StrictOrder(lt)
    ensures IsWalk(lt, snapshots, filter, pages) && call == |pages| <= |snapshots|
    ensures listed.Some? <==> Finished(pages)
    ensures listed.None? ==> call == |snapshots|
    ensures listed.Some? ==>
            listed.value == Collected(pages) && ReadsThrough(lt, snapshots[..call], filter, listed.value)
  {
    var plugins := [];
    var token: Option<Key> := None;
    call := 0;
    pages := [];
    while true
      invariant call == |pages| && token == After(pages, call)
      invariant IsWalk(lt, snapshots, filter, pages) && !Finished(pages)
      invariant plugins == Collected(pages)
      decreases |snapshots| - call
    {
      if call == |snapshots| {
        return None, call, pages;
      }
      var resp := ListPage(lt, snapshots[call], filter, Page(0, token));
      WalkGrows(lt, snapshots, filter, pages, resp);
      CollectedGrows(pages, resp);
      plugins := plugins + resp.plugins;
      pages := pages + [resp];
      call := call + 1;
      if resp.next.None? {
        break;
      }
      token := resp.next;
    }
    listed := Some(plugins);
    FinishedWalk(lt, snapshots, filter, pages);
  }

  /** What a finished walk promises when the table changes between pages: no row out
      of order or twice, none that did not match when it was read, and every row that
      matched throughout. */
  lemma FinishedWalk(lt: Collation, snapshots: seq<Table>, filter: Filter, pages: seq<PluginList>)
    requires StrictOrder(lt) && IsWalk(lt, snapshots, filter, pages) && Finished(pages)
    ensures ReadsThrough(lt, snapshots[..|pages|], filter, Collected(pages))
  {
    KeysAreOrdered(lt);
    WalkAscends(lt, snapshots, filter, pages);
    forall r | r in Collected(pages)
      ensures WasThere(snapshots[..|pages|], filter, r)
    {
      WalkIsSound(lt, snapshots, filter, pages, r);
    }
    forall key | AlwaysMatches(snapshots[..|pages|], filter, key)
      ensures Returned(Collected(pages), key)
    {
      WalkFinds(lt, snapshots, filter, pages, key);
    }
  }

  // ----- a table that does not change -----

  ghost predicate Unchanging(snapshots: seq<Table>, table: Table) {
    forall i | 0 <= i < |snapshots| :: snapshots[i] == table
  }

  /** A finished walk over one table is its whole listing, in order. */
  lemma QuietWalk(lt: Collation, snapshots: seq<Table>, table: Table, filter: Filter, pages: seq<PluginList>)
    requires StrictOrder(lt) && IsWalk(lt, snapshots, filter, pages) && Finished(pages)
    requires Unchanging(snapshots, table)
    ensures IsCut(lt, WantedRows(lt, table, filter, None), None, Collected(pages))
  {
    FinishedWalk(lt, snapshots, filter, pages);
    var all := WantedRows(lt, table, filter, None);
    forall r | r in all
      ensures r in Collected(pages)
    {
      assert AlwaysMatches(snapshots[..|pages|], filter, r.key);
      var found :| found in Collected(pages) && found.key == r.key;
      assert found in Rows(table);
    }
  }

  lemma {:induction false} FullPages(lt: Collation, snapshots: seq<Table>, filter: Filter, pages: seq<PluginList>)
    requires IsWalk(lt, snapshots, filter, pages)
    ensures |Collected(pages)| <= DEFAULT_PAGE_SIZE * |pages|
    ensures !Finished(pages) ==> |Collected(pages)| == DEFAULT_PAGE_SIZE * |pages|
    ensures Finished(pages) ==> |Collected(pages)| >= DEFAULT_PAGE_SIZE * (|pages| - 1)
    decreases |pages|
  {
    if pages != [] {
      WalkPrefix(lt, snapshots, filter, pages);
      FullPages(lt, snapshots, filter, pages[..|pages| - 1]);
      assert ServedAt(lt, snapshots, filter, pages, |pages| - 1);
    }
  }

  lemma {:induction false} AsManyAsRows(lt: Collation, rows: seq<Row>, all: set<Row>)
    requires OrdersKeys(lt) && Ascending(lt, rows) && forall r | r in rows :: r in all
    ensures |rows| <= |all|
    ensures (forall r | r in all :: r in rows) ==> |rows| == |all|
  {
    if rows == [] {
      if all != {} {
        var r :| r in all;
      }
    } else {
      var n := |rows| - 1;
      assert rows == rows[..n] + [rows[n]];
      forall r | r in rows[..n]
        ensures r in all - {rows[n]}
      {
        var i :| 0 <= i < n && rows[i] == r;
        assert KeyLess(lt, rows[i].key, rows[n].key);
      }
      AsManyAsRows(lt, rows[..n], all - {rows[n]});
    }
  }

  /** Over one table the walk succeeds exactly if the calls it gets hold every row. */
  lemma QuietWalkSucceedsIff(lt: Collation, snapshots: seq<Table>, table: Table, filter: Filter, pages: seq<PluginList>)
    requires StrictOrder(lt) && IsWalk(lt, snapshots, filter, pages) && Unchanging(snapshots, table)
    requires Finished(pages) || |pages| == |snapshots|
    ensures Finished(pages) <==>
            |snapshots| > 0 && |WantedRows(lt, table, filter, None)| <= DEFAULT_PAGE_SIZE * |snapshots|
  {
    KeysAreOrdered(lt);
    FullPages(lt, snapshots, filter, pages);
    var all := WantedRows(lt, table, filter, None);
    if Finished(pages) {
      QuietWalk(lt, snapshots, table, filter, pages);
      AsManyAsRows(lt, Collected(pages), all);
    } else if pages != [] {
      MoreRemains(lt, snapshots, table, filter, pages);
    }
  }

  lemma MoreRemains(lt: Collation, snapshots: seq<Table>, table: Table, filter: Filter, pages: seq<PluginList>)
    requires OrdersKeys(lt) && IsWalk(lt, snapshots, filter, pages) && Unchanging(snapshots, table)
    requires pages != [] && !Finished(pages)
    ensures |WantedRows(lt, table, filter, None)| > |Collected(pages)|
  {
    var n := |pages| - 1;
    var all := WantedRows(lt, table, filter, None);
    WalkAscends(lt, snapshots, filter, pages);
    assert ServedAt(lt, snapshots, filter, pages, n);
    var extra :| extra in WantedRows(lt, snapshots[n], filter, After(pages, n)) && extra !in pages[n].plugins;
    assert Beyond(lt, pages[n].plugins, extra);
    assert pages[n].plugins[DEFAULT_PAGE_SIZE - 1] in pages[n].plugins;
    assert KeyLess(lt, pages[n].next.value, extra.key);
    assert extra !in Collected(pages);
    forall r | r in Collected(pages)
      ensures r in all - {extra}
    {
      WalkIsSound(lt, snapshots, filter, pages, r);
    }
    AsManyAsRows(lt, Collected(pages), all - {extra});
  }
}
