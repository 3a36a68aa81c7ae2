/** The two other statements assembled with numbered placeholders: the masked update
    of a plugin (internal/adapters/registry/registry.go) and the multi-row insert of
    audit entries (internal/adapters/audit/audit.go). */
module Statements {
  import Listing
  import opened Sql
  import opened Strings

  // ----- updating a plugin -----

  datatype Plugin = Plugin(config: string, tags: seq<string>)

  type Table = map<Listing.Key, Plugin>

  datatype Assignment = SetConfig(arg: nat) | SetTags(arg: nat)

  /** update plugins set ... where group_name = $g and name = $n and version = $v */
  datatype UpdateQuery = UpdateQuery(assignments: seq<Assignment>, groupArg: nat, nameArg: nat, versionArg: nat)

  /** One assignment carried out; None if its argument has not the column's type. */
  function Assigned(assignment: Assignment, args: seq<Arg>, plugin: Plugin): Option<Plugin> {
    match (assignment, Bound(args, assignment.arg))
    case (SetConfig(_), Some(Json(document))) => Some(plugin.(config := document))
    case (SetTags(_), Some(TextArray(items))) => Some(plugin.(tags := items))
    case _ => None
  }

  function AllAssigned(assignments: seq<Assignment>, args: seq<Arg>, plugin: Plugin): Option<Plugin> {
    if assignments == [] then Some(plugin)
    else
      match Assigned(assignments[0], args, plugin)
      case None => None
      case Some(changed) => AllAssigned(assignments[1..], args, changed)
  }

  datatype Outcome = Updated(table: Table) | NoRows | SqlError

  /** What the database makes of the statement. */
  function Execute(query: UpdateQuery, args: seq<Arg>, table: Table): Outcome {
    match (Bound(args, query.groupArg), Bound(args, query.nameArg), Bound(args, query.versionArg))
    case (Some(Text(group)), Some(Text(name)), Some(Text(version))) =>
      var key := Listing.Key(group, name, version);
      if key !in table then NoRows
      else
        var changed := AllAssigned(query.assignments, args, table[key]);
        if changed.None? then SqlError else Updated(table[key := changed.value])
    case _ => SqlError
  }

  function AssignedArgs(assignments: seq<Assignment>): seq<nat> {
    if assignments == [] then [] else [assignments[0].arg] + AssignedArgs(assignments[1..])
  }

  /** The numbers of the placeholders, as the statement spells them left to right. */
  function UpdatePlaceholders(query: UpdateQuery): seq<nat> {
    AssignedArgs(query.assignments) + [query.groupArg, query.nameArg, query.versionArg]
  }

  /** checked is the configuration as validated and given its checksum; None if that failed. */
  datatype UpdateRequest = UpdateRequest(
    key: Listing.Key, checked: Option<string>, tags: seq<string>, updateConfig: bool, updateTags: bool)

  /** What the mask selects, and nothing else. */
  function Masked(req: UpdateRequest, plugin: Plugin): Plugin
    requires req.updateConfig ==> req.checked.Some?
  {
    Plugin(if req.updateConfig then req.checked.value else plugin.config,
           if req.updateTags then req.tags else plugin.tags)
  }

  ghost predicate MeansUpdate(query: UpdateQuery, args: seq<Arg>, req: UpdateRequest)
    requires req.updateConfig ==> req.checked.Some?
  {
    && UpdatePlaceholders(query) == OneTo(|args|)
    && forall table: Table :: Execute(query, args, table) ==
         if req.key in table then Updated(table[req.key := Masked(req, table[req.key])]) else NoRows
  }

  method BuildUpdate(req: UpdateRequest) returns (query: UpdateQuery, args: seq<Arg>)
    requires req.updateConfig ==> req.checked.Some?
    requires req.updateConfig || req.updateTags
    ensures MeansUpdate(query, args, req)
  {
    var setClauses := [];
    args := [];
    if req.updateConfig {
      args := args + [Json(req.checked.value)];
      setClauses := setClauses + [SetConfig(|args|)];
    }
    if req.updateTags {
      args := args + [TextArray(req.tags)];
      setClauses := setClauses + [SetTags(|args|)];
    }
    args := args + [Text(req.key.group), Text(req.key.name), Text(req.key.version)];
    query := UpdateQuery(setClauses, |args| - 2, |args| - 1, |args|);
    assert setClauses[1..] == if |setClauses| == 2 then [SetTags(2)] else [];
    forall plugin
      ensures AllAssigned(setClauses, args, plugin) == Some(Masked(req, plugin))
    {
      var changed := Assigned(setClauses[0], args, plugin);
      assert changed.Some?;
      assert AllAssigned(setClauses[1..], args, changed.value) == Some(Masked(req, plugin));
    }
    assert AssignedArgs(setClauses[1..]) == if |setClauses| == 2 then [2] else [];
    assert AssignedArgs(setClauses) == OneTo(|setClauses|);
    assert UpdatePlaceholders(query) == OneTo(|args|);
  }

  datatype UpdateError = NothingSelected | BadConfig | NotFound | Database

  datatype UpdateResult = Done(table: Table) | Refused(error: UpdateError)

  /** Registry.Update: the row of the key changes where the mask says, and nothing else
      does; every refusal leaves the table alone. */
  method Update(table: Table, req: UpdateRequest) returns (r: UpdateResult)
    ensures r == Refused(NothingSelected) <==> !req.updateConfig && !req.updateTags
    ensures r == Refused(BadConfig) <==> req.updateConfig && req.checked.None?
    ensures r == Refused(NotFound) <==>
            (req.updateConfig || req.updateTags) && (req.updateConfig ==> req.checked.Some?) && req.key !in table
    ensures r != Refused(Database)
    ensures r.Done? ==> req.key in table && r.table.Keys == table.Keys
    ensures r.Done? ==> forall k | k in table && k != req.key :: r.table[k] == table[k]
    ensures r.Done? && req.updateConfig ==> req.checked == Some(r.table[req.key].config)
    ensures r.Done? && !req.updateConfig ==> r.table[req.key].config == table[req.key].config
    ensures r.Done? ==> r.table[req.key].tags == if req.updateTags then req.tags else table[req.key].tags
  {
    if !req.updateConfig && !req.updateTags {
      return Refused(NothingSelected);
    }
    if req.updateConfig && req.checked.None? {
      return Refused(BadConfig);
    }
    var query, args := BuildUpdate(req);
    match Execute(query, args, table) {
      case Updated(changed) => return Done(changed);
      case NoRows => return Refused(NotFound);
      case SqlError => return Refused(Database);
    }
  }

  // ----- inserting audit entries -----

  /** metadata is the encoded document; None if it cannot be encoded. */
  datatype AuditEntry = AuditEntry(
    id: string, operationType: string, pluginName: string, callerAddress: string, status: string,
    errorCode: string, errorMessage: string, durationMs: int, metadata: Option<string>, createdAt: int)

  const COLUMNS_PER_ENTRY: nat := 10

  /** The columns the statement names, in its order. */
  const COLUMNS := ["id", "operation_type", "plugin_name", "caller_address", "status",
                    "error_code", "error_message", "duration_ms", "metadata", "created_at"]

  /** The inserted row holds the entry: each column, in the order in which the statement
      names them, gets the part of the entry that it is named for. */
  ghost predicate Inserts(placeholders: seq<nat>, args: seq<Arg>, entry: AuditEntry) {
    && |placeholders| == 10
    && Bound(args, placeholders[0]) == Some(Text(entry.id))
    && Bound(args, placeholders[1]) == Some(Text(entry.operationType))
    && Bound(args, placeholders[2]) == Some(Text(entry.pluginName))
    && Bound(args, placeholders[3]) == Some(Text(entry.callerAddress))
    && Bound(args, placeholders[4]) == Some(Text(entry.status))
    && Bound(args, placeholders[5]) == Some(Text(entry.errorCode))
    && Bound(args, placeholders[6]) == Some(Text(entry.errorMessage))
    && Bound(args, placeholders[7]) == Some(Number(entry.durationMs))
    && Bound(args, placeholders[8]) == Some(Json(if entry.metadata.Some? then entry.metadata.value else "{}"))
    && Bound(args, placeholders[9]) == Some(Instant(entry.createdAt))
  }

  function Flat(rows: seq<seq<nat>>): seq<nat> {
    if rows == [] then [] else Flat(rows[..|rows| - 1]) + rows[|rows| - 1]
  }

  /** One row of arguments, in the order the code appends them. */
  function RowArgs(entry: AuditEntry): seq<Arg> {
    [Text(entry.id), Text(entry.operationType), Text(entry.pluginName), Text(entry.callerAddress), Text(entry.status),
     Text(entry.errorCode), Text(entry.errorMessage), Number(entry.durationMs),
     Json(if entry.metadata.Some? then entry.metadata.value else "{}"), Instant(entry.createdAt)]
  }

  method RowPlaceholders(row: nat) returns (placeholders: seq<nat>)
    ensures |placeholders| == COLUMNS_PER_ENTRY
    ensures forall c | 0 <= c < COLUMNS_PER_ENTRY :: placeholders[c] == row * COLUMNS_PER_ENTRY + c + 1
  {
    placeholders := [];
    for col := 0 to COLUMNS_PER_ENTRY
      invariant |placeholders| == col
      invariant forall c | 0 <= c < col :: placeholders[c] == row * COLUMNS_PER_ENTRY + c + 1
    {
      placeholders := placeholders + [row * COLUMNS_PER_ENTRY + col + 1];
    }
  }

  lemma RowIsNumbered(rows: seq<seq<nat>>, n: nat, placeholders: seq<nat>)
    requires Flat(rows) == OneTo(n) && |placeholders| == COLUMNS_PER_ENTRY
    requires forall c | 0 <= c < COLUMNS_PER_ENTRY :: placeholders[c] == n + c + 1
    ensures Flat(rows + [placeholders]) == OneTo(n + COLUMNS_PER_ENTRY)
  {
    assert (rows + [placeholders])[..|rows|] == rows;
    assert OneTo(n) + placeholders == OneTo(n + COLUMNS_PER_ENTRY);
  }

  lemma RowFits(args: seq<Arg>, placeholders: seq<nat>, entry: AuditEntry)
    requires |placeholders| == COLUMNS_PER_ENTRY
    requires forall c | 0 <= c < COLUMNS_PER_ENTRY :: placeholders[c] == |args| + c + 1
    ensures |RowArgs(entry)| == COLUMNS_PER_ENTRY && Inserts(placeholders, args + RowArgs(entry), entry)
  {
    forall c | 0 <= c < COLUMNS_PER_ENTRY
      ensures Bound(args + RowArgs(entry), placeholders[c]) == Some(RowArgs(entry)[c])
    {
    }
  }

  lemma StillInserts(placeholders: seq<nat>, args: seq<Arg>, more: seq<Arg>, entry: AuditEntry)
    requires Inserts(placeholders, args, entry)
    ensures Inserts(placeholders, args + more, entry)
  {
    forall col | 0 <= col < 10
      ensures Bound(args + more, placeholders[col]) == Bound(args, placeholders[col])
    {
      assert Bound(args, placeholders[col]).Some?;
    }
  }

  /** Row by row, as far as there are rows. */
  ghost predicate AllInsert(rows: seq<seq<nat>>, args: seq<Arg>, entries: seq<AuditEntry>) {
    |rows| <= |entries| && forall i | 0 <= i < |rows| :: Inserts(rows[i], args, entries[i])
  }

  lemma OneMoreRow(rows: seq<seq<nat>>, args: seq<Arg>, entries: seq<AuditEntry>, placeholders: seq<nat>)
    requires AllInsert(rows, args, entries) && |rows| < |entries| && |placeholders| == COLUMNS_PER_ENTRY
    requires forall c | 0 <= c < COLUMNS_PER_ENTRY :: placeholders[c] == |args| + c + 1
    ensures AllInsert(rows + [placeholders], args + RowArgs(entries[|rows|]), entries)
    ensures |RowArgs(entries[|rows|])| == COLUMNS_PER_ENTRY
  {
    RowFits(args, placeholders, entries[|rows|]);
    forall i | 0 <= i < |rows|
      ensures Inserts(rows[i], args + RowArgs(entries[|rows|]), entries[i])
    {
      StillInserts(rows[i], args, RowArgs(entries[|rows|]), entries[i]);
    }
  }

  /** buildInsert: the placeholders of all rows read 1, 2, ... up to the last argument,
      and row by row each column gets its own value. */
  method BuildInsert(entries: seq<AuditEntry>) returns (rows: seq<seq<nat>>, args: seq<Arg>)
    ensures |rows| == |entries| && Flat(rows) == OneTo(|args|)
    ensures AllInsert(rows, args, entries)
    ensures COLUMNS[..5] == ["id", "operation_type", "plugin_name", "caller_address", "status"]
    ensures COLUMNS[5..] == ["error_code", "error_message", "duration_ms", "metadata", "created_at"]
  {
    rows, args := [], [];
    for row := 0 to |entries|
      invariant |rows| == row && |args| == row * COLUMNS_PER_ENTRY
      invariant Flat(rows) == OneTo(|args|)
      invariant AllInsert(rows, args, entries)
    {
      var placeholders := RowPlaceholders(row);
      RowIsNumbered(rows, |args|, placeholders);
      OneMoreRow(rows, args, entries, placeholders);
      rows := rows + [placeholders];
      args := args + RowArgs(entries[row]);
    }
  }
}
