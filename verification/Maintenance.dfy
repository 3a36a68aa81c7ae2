/** The maintenance pass over the audit table's partitions: create the current month
    and the next ones, then drop what fell out of the retention window
    (internal/adapters/audit/partitions.go).  The catalogue maps partition names to
    bounds; CREATE and DROP statements act on it, each half in a transaction of its
    own that rolls back as a whole. */
module Maintenance {
  import opened Partitions
  import opened Strings

  datatype Bounds = Default | Range(lo: Month, hi: Month)

  type Catalogue = map<string, Bounds>

  function MonthBounds(m: Month): Bounds {
    Range(m, AddMonths(m, 1))
  }

  predicate Overlaps(b: Bounds, m: Month) {
    b.Range? && Before(b.lo, AddMonths(m, 1)) && Before(m, b.hi)
  }

  /** Range bounds are month starts, so an instant is inside when its month is. */
  predicate Covers(b: Bounds, t: Instant) {
    b.Range? && !Before(t.month, b.lo) && Before(t.month, b.hi)
  }

  /** A range overlaps a month exactly if it covers the month's instants. */
  lemma OverlapsIff(b: Bounds, t: Instant)
    ensures Overlaps(b, t.month) <==> Covers(b, t)
  {
    if b.Range? {
      AddMonthsAdds(t.month, 1);
      BeforeIsIndexOrder(b.lo, AddMonths(t.month, 1));
      BeforeIsIndexOrder(t.month, b.lo);
    }
  }

  predicate Monthly(name: string) {
    ParsePartitionMonth(name).Some?
  }

  /** The name reads as a month before the cutoff. */
  predicate Expired(name: string, cutoff: Month) {
    Monthly(name) && Before(ParsePartitionMonth(name).value, cutoff)
  }

  // ----- lists -----

  function Select(names: seq<string>, keep: string -> bool): seq<string> {
    if names == [] then []
    else (if keep(names[0]) then [names[0]] else []) + Select(names[1..], keep)
  }

  lemma {:induction false} SelectAppend(names: seq<string>, keep: string -> bool, name: string)
    ensures Select(names + [name], keep) == Select(names, keep) + if keep(name) then [name] else []
  {
    if names == [] {
      assert [] + [name] == [name];
    } else {
      var rest := names[1..];
      SelectAppend(rest, keep, name);
      var first := if keep(names[0]) then [names[0]] else [];
      var last := if keep(name) then [name] else [];
      assert (names + [name])[0] == names[0] && (names + [name])[1..] == rest + [name];
      assert first + (Select(rest, keep) + last) == first + Select(rest, keep) + last;
    }
  }

  lemma {:induction false} Selected(names: seq<string>, keep: string -> bool)
    ensures forall n :: n in Select(names, keep) <==> n in names && keep(n)
  {
    if names != [] {
      Selected(names[1..], keep);
    }
  }

  /** A narrower selection is as long as a wider one only when it is the same. */
  lemma {:induction false} SameLength(names: seq<string>, some: string -> bool, more: string -> bool)
    requires forall n | some(n) :: more(n)
    ensures |Select(names, some)| <= |Select(names, more)|
    ensures |Select(names, some)| == |Select(names, more)| <==> forall n | n in names && more(n) :: some(n)
  {
    if names != [] {
      SameLength(names[1..], some, more);
      assert forall n :: n in names <==> n == names[0] || n in names[1..];
    }
  }

  method MonthlyPartitions(names: seq<string>) returns (kept: seq<string>)
    ensures kept == Select(names, Monthly)
  {
    kept := [];
    for i := 0 to |names|
      invariant kept == Select(names[..i], Monthly)
    {
      assert names[..i + 1] == names[..i] + [names[i]];
      SelectAppend(names[..i], Monthly, names[i]);
      if ParsePartitionMonth(names[i]).Some? {
        kept := kept + [names[i]];
      }
    }
    assert names[..|names|] == names;
  }

  method ExpiredPartitions(names: seq<string>, cutoff: Month) returns (expired: seq<string>)
    ensures expired == Select(names, n => Expired(n, cutoff))
  {
    ghost var keep := n => Expired(n, cutoff);
    expired := [];
    for i := 0 to |names|
      invariant expired == Select(names[..i], keep)
    {
      assert names[..i + 1] == names[..i] + [names[i]];
      SelectAppend(names[..i], keep, names[i]);
      var month := ParsePartitionMonth(names[i]);
      if month.None? {
        continue;
      }
      if Before(month.value, cutoff) {
        expired := expired + [names[i]];
      }
    }
    assert names[..|names|] == names;
  }

  /** The current month and the next ahead months, which tile the time between. */
  method UpcomingMonths(now: Instant, ahead: nat) returns (months: seq<Month>)
    ensures |months| == ahead + 1 && months[0] == now.month
    ensures forall i | 0 <= i <= ahead :: Index(months[i]) == Index(now.month) + i
    ensures forall i | 0 <= i < ahead :: MonthBounds(months[i]).hi == MonthBounds(months[i + 1]).lo
    ensures months == Upcoming(now, ahead)
  {
    months := [];
    for i := 0 to ahead + 1
      invariant |months| == i
      invariant forall k | 0 <= k < i :: months[k] == AddMonths(now.month, k)
    {
      months := months + [AddMonths(now.month, i)];
    }
    forall i | 0 <= i <= ahead
      ensures Index(months[i]) == Index(now.month) + i && Index(AddMonths(months[i], 1)) == Index(now.month) + i + 1
    {
      AddMonthsAdds(now.month, i);
      AddMonthsAdds(months[i], 1);
    }
    IndexIsInjective(months[0], now.month);
    forall i | 0 <= i < ahead
      ensures AddMonths(months[i], 1) == months[i + 1]
    {
      IndexIsInjective(AddMonths(months[i], 1), months[i + 1]);
    }
  }

  function Upcoming(now: Instant, ahead: nat): seq<Month> {
    seq(ahead + 1, i requires 0 <= i => AddMonths(now.month, i))
  }

  /** Exactly one of the ranges made for the upcoming months holds an instant that
      lies in one of those months, and none holds any other. */
  lemma RangesTile(now: Instant, ahead: nat, t: Instant, i: nat)
    requires i <= ahead
    ensures Covers(MonthBounds(Upcoming(now, ahead)[i]), t) <==> Index(t.month) == Index(now.month) + i
  {
    AddMonthsAdds(now.month, i);
    AddMonthsAdds(AddMonths(now.month, i), 1);
    BeforeIsIndexOrder(t.month, AddMonths(now.month, i));
    BeforeIsIndexOrder(t.month, AddMonths(AddMonths(now.month, i), 1));
  }

  function RetentionCutoff(now: Instant, months: int): Month {
    AddMonths(now.month, -months)
  }

  // ----- the two transactions -----

  /** CREATE TABLE IF NOT EXISTS ... PARTITION OF: nothing when the name is taken,
      an error when the range overlaps another or the default partition holds rows
      of that month. */
  function Create(c: Catalogue, stray: set<Month>, m: Month): Option<Catalogue> {
    if PartitionName(m) in c then Some(c)
    else if m in stray || exists name | name in c :: Overlaps(c[name], m) then None
    else Some(c[PartitionName(m) := MonthBounds(m)])
  }

  function CreateAll(c: Catalogue, stray: set<Month>, months: seq<Month>): Option<Catalogue>
    decreases |months|
  {
    if months == [] then Some(c)
    else match Create(c, stray, months[0])
      case None => None
      case Some(c') => CreateAll(c', stray, months[1..])
  }

  datatype Error = CreateFailed | RetentionWouldEmptyTable

  datatype Result = Ok(count: nat) | Err(error: Error)

  ghost predicate WouldEmpty(c: Catalogue, cutoff: Month) {
    (exists name :: name in c && Monthly(name)) && forall name | name in c && Monthly(name) :: Expired(name, cutoff)
  }

  ghost function DropAll(c: Catalogue, cutoff: Month): Catalogue {
    map name | name in c && !Expired(name, cutoff) :: c[name]
  }

  /** One pass: creation and then retention, each only with its own lock, and retention
      only if creation went through and retention is enabled. */
  ghost function PassWith(
    c: Catalogue, retention: int, ahead: nat, now: Instant, stray: set<Month>, lockedEnsure: bool, lockedDrop: bool)
    : (Catalogue, Option<Error>)
  {
    match if lockedEnsure then CreateAll(c, stray, Upcoming(now, ahead)) else Some(c)
    case None => (c, Some(CreateFailed))
    case Some(c') =>
      if retention <= 0 || !lockedDrop then (c', None)
      else
        var cutoff := RetentionCutoff(now, retention);
        if WouldEmpty(c', cutoff) then (c', Some(RetentionWouldEmptyTable)) else (DropAll(c', cutoff), None)
  }

  /** A pass that wins both locks. */
  ghost function Pass(c: Catalogue, retention: int, ahead: nat, now: Instant, stray: set<Month>)
    : (Catalogue, Option<Error>)
  {
    PassWith(c, retention, ahead, now, stray, true, true)
  }

  class Maintainer {
    const retentionMonths: int
    const preCreateMonths: nat
    var catalogue: Catalogue

    /** NewMaintainer with setDefault's substitutions for negative settings. */
    constructor (retentionMonths: int, preCreateMonths: int, catalogue: Catalogue)
      ensures this.retentionMonths == if retentionMonths < 0 then 12 else retentionMonths
      ensures this.preCreateMonths == if preCreateMonths < 0 then 3 else preCreateMonths
      ensures this.catalogue == catalogue
    {
      this.retentionMonths := if retentionMonths < 0 then 12 else retentionMonths;
      this.preCreateMonths := if preCreateMonths < 0 then 3 else preCreateMonths;
      this.catalogue := catalogue;
    }

    /** The count is the number of statements run, present or not. */
    method EnsurePartitions(months: seq<Month>, locked: bool, stray: set<Month>) returns (r: Result)
      modifies this
      ensures !locked ==> r == Ok(0) && catalogue == old(catalogue)
      ensures locked ==> match CreateAll(old(catalogue), stray, months)
                         case None => r == Err(CreateFailed) && catalogue == old(catalogue)
                         case Some(c) => r == Ok(|months|) && catalogue == c
    {
      if !locked {
        return Ok(0);
      }

      var working, created := catalogue, 0;
      for i := 0 to |months|
        invariant catalogue == old(catalogue) && created == i
        invariant CreateAll(working, stray, months[i..]) == CreateAll(catalogue, stray, months)
      {
        assert months[i..][1..] == months[i + 1..];
        var result := Create(working, stray, months[i]);
        if result.None? {
          return Err(CreateFailed);
        }
        working := result.value;
        created := created + 1;
      }
      catalogue := working;
      return Ok(created);
    }

    /** The catalogue lists names in any order. */
    method ListPartitions() returns (names: seq<string>)
      ensures forall n :: n in names <==> n in catalogue
      ensures forall i, k | 0 <= i < k < |names| :: names[i] != names[k]
    {
      names := [];
      var unseen := catalogue.Keys;
      while unseen != {}
        invariant unseen <= catalogue.Keys
        invariant forall n :: n in names <==> n in catalogue && n !in unseen
        invariant forall i, k | 0 <= i < k < |names| :: names[i] != names[k]
        decreases |unseen|
      {
        var name :| name in unseen;
        unseen := unseen - {name};
        names := names + [name];
      }
    }

    method DropExpiredPartitions(cutoff: Month, locked: bool) returns (r: Result)
      modifies this
      ensures !locked ==> r == Ok(0) && catalogue == old(catalogue)
      ensures locked ==> if WouldEmpty(old(catalogue), cutoff)
                         then r == Err(RetentionWouldEmptyTable) && catalogue == old(catalogue)
                         else r.Ok? && catalogue == DropAll(old(catalogue), cutoff)
      ensures locked && r.Ok? ==> r.count + |catalogue| == |old(catalogue)|
    {
      if !locked {
        return Ok(0);
      }

      var names := ListPartitions();
      var expired := ExpiredPartitions(names, cutoff);
      var monthly := MonthlyPartitions(names);
      LengthsDecide(catalogue, names, cutoff);
      if |expired| > 0 && |expired| == |monthly| {
        return Err(RetentionWouldEmptyTable);
      }

      DropPartitions(expired);
      return Ok(|expired|);
    }

    method DropPartitions(names: seq<string>)
      requires forall i | 0 <= i < |names| :: names[i] in catalogue
      requires forall i, k | 0 <= i < k < |names| :: names[i] != names[k]
      modifies this
      ensures catalogue == map name | name in old(catalogue) && name !in names :: old(catalogue)[name]
      ensures |names| + |catalogue| == |old(catalogue)|
    {
      for i := 0 to |names|
        invariant catalogue == map name | name in old(catalogue) && name !in names[..i] :: old(catalogue)[name]
        invariant i + |catalogue| == |old(catalogue)|
      {
        assert names[i] !in names[..i];
        assert forall name :: name in names[..i + 1] <==> name in names[..i] || name == names[i];
        assert (catalogue - {names[i]}).Keys == catalogue.Keys - {names[i]};
        catalogue := catalogue - {names[i]};
      }
      assert names[..|names|] == names;
    }

    /** One pass. */
    method Maintain(now: Instant, lockedEnsure: bool, lockedDrop: bool, stray: set<Month>) returns (r: Result)
      modifies this
      ensures var (c, error) := PassWith(old(catalogue), retentionMonths, preCreateMonths, now, stray, lockedEnsure,
                                         lockedDrop);
              catalogue == c && (if error.Some? then r == Err(error.value) else r.Ok?)
    {
      var months := UpcomingMonths(now, preCreateMonths);
      r := EnsurePartitions(months, lockedEnsure, stray);
      if r.Err? {
        return;
      }

      if retentionMonths <= 0 {
        return Ok(0);
      }

      r := DropExpiredPartitions(RetentionCutoff(now, retentionMonths), lockedDrop);
    }
  }

  lemma {:induction false} DistinctSelection(names: seq<string>, keep: string -> bool)
    requires forall i, k | 0 <= i < k < |names| :: names[i] != names[k]
    ensures var s := Select(names, keep); forall i, k | 0 <= i < k < |s| :: s[i] != s[k]
  {
    if names != [] {
      DistinctSelection(names[1..], keep);
      Selected(names[1..], keep);
      forall k | 0 < k < |names|
        ensures names[k] != names[0]
      {
      }
      assert names[0] !in names[1..];
      var s := Select(names, keep);
      if keep(names[0]) {
        assert s[1..] == Select(names[1..], keep);
        assert forall k | 0 < k < |s| :: s[k] == s[1..][k - 1] && s[k] in s[1..];
      } else {
        assert s == Select(names[1..], keep);
      }
    }
  }

  /** Comparing the two lengths decides whether the drop would leave no month. */
  lemma LengthsDecide(c: Catalogue, names: seq<string>, cutoff: Month)
    requires forall n :: n in names <==> n in c
    requires forall i, k | 0 <= i < k < |names| :: names[i] != names[k]
    ensures var expired, monthly := Select(names, n => Expired(n, cutoff)), Select(names, Monthly);
            && (|expired| > 0 && |expired| == |monthly| <==> WouldEmpty(c, cutoff))
            && (forall n :: n in expired <==> n in c && Expired(n, cutoff))
            && (forall i, k | 0 <= i < k < |expired| :: expired[i] != expired[k])
  {
    var keep := n => Expired(n, cutoff);
    Selected(names, keep);
    Selected(names, Monthly);
    SameLength(names, keep, Monthly);
    DistinctSelection(names, keep);
    var expired := Select(names, keep);
    if |expired| > 0 {
      assert expired[0] in expired;
    }
  }

  // ----- whole passes -----

  /** Every partition whose name reads as a month holds exactly that month. */
  ghost predicate WellFormed(c: Catalogue) {
    forall name | name in c && Monthly(name) :: c[name] == MonthBounds(ParsePartitionMonth(name).value)
  }

  lemma {:induction false} CreateAllKeeps(c: Catalogue, stray: set<Month>, months: seq<Month>)
    requires WellFormed(c) && CreateAll(c, stray, months).Some?
    requires forall i | 0 <= i < |months| :: FourDigitYear(months[i])
    ensures var c' := CreateAll(c, stray, months).value;
            && WellFormed(c')
            && (forall name | name in c :: name in c' && c'[name] == c[name])
            && (forall i | 0 <= i < |months| :: PartitionName(months[i]) in c')
    decreases |months|
  {
    if months != [] {
      NameThenParse(months[0]);
      CreateAllKeeps(Create(c, stray, months[0]).value, stray, months[1..]);
    }
  }

  /** The clock of a pass and every month it names stay within four-digit years. */
  ghost predicate InCalendar(now: Instant, ahead: nat) {
    forall i: nat | i <= ahead :: FourDigitYear(AddMonths(now.month, i))
  }

  /** Exactly one monthly partition covers the instant, and it bears the month's name. */
  ghost predicate CoveredOnce(c: Catalogue, t: Instant) {
    && PartitionName(t.month) in c && Monthly(PartitionName(t.month)) && Covers(c[PartitionName(t.month)], t)
    && (forall name | name in c && Monthly(name) && Covers(c[name], t) :: name == PartitionName(t.month))
  }

  lemma CoveredByName(c: Catalogue, t: Instant)
    requires WellFormed(c) && FourDigitYear(t.month) && PartitionName(t.month) in c
    ensures CoveredOnce(c, t)
  {
    NameThenParse(t.month);
    AddMonthsAdds(t.month, 1);
    BeforeIsIndexOrder(t.month, AddMonths(t.month, 1));
    forall name | name in c && Monthly(name) && Covers(c[name], t)
      ensures name == PartitionName(t.month)
    {
      var m := ParsePartitionMonth(name).value;
      AddMonthsAdds(m, 1);
      BeforeIsIndexOrder(t.month, m);
      BeforeIsIndexOrder(t.month, AddMonths(m, 1));
      IndexIsInjective(m, t.month);
      ParseThenName(name);
    }
  }

  /** The name reads as a month more than retention months before this one. */
  predicate Outlived(name: string, now: Instant, retention: int) {
    Monthly(name) && Index(ParsePartitionMonth(name).value) < Index(now.month) - retention
  }

  lemma ExpiredIsOutlived(name: string, now: Instant, retention: int)
    ensures Expired(name, RetentionCutoff(now, retention)) <==> Outlived(name, now, retention)
  {
    AddMonthsAdds(now.month, -retention);
    if Monthly(name) {
      BeforeIsIndexOrder(ParsePartitionMonth(name).value, RetentionCutoff(now, retention));
    }
  }

  /** The name reads as this month or one of the next ahead. */
  predicate InSight(name: string, now: Instant, ahead: nat) {
    Monthly(name) && Index(now.month) <= Index(ParsePartitionMonth(name).value) <= Index(now.month) + ahead
  }

  lemma InSightIff(name: string, now: Instant, ahead: nat)
    requires InCalendar(now, ahead)
    ensures InSight(name, now, ahead) <==> exists i: nat :: i <= ahead && name == PartitionName(Upcoming(now, ahead)[i])
  {
    if InSight(name, now, ahead) {
      var m := ParsePartitionMonth(name).value;
      var i: nat := Index(m) - Index(now.month);
      AddMonthsAdds(now.month, i);
      IndexIsInjective(m, Upcoming(now, ahead)[i]);
      ParseThenName(name);
    }
    if i: nat :| i <= ahead && name == PartitionName(Upcoming(now, ahead)[i]) {
      NameThenParse(Upcoming(now, ahead)[i]);
      AddMonthsAdds(now.month, i);
    }
  }

  /** Creation adds the names of its months, with their ranges, and nothing else. */
  lemma {:induction false} CreateAllAdds(c: Catalogue, stray: set<Month>, months: seq<Month>)
    requires CreateAll(c, stray, months).Some?
    requires forall i | 0 <= i < |months| :: FourDigitYear(months[i])
    ensures Adds(c, CreateAll(c, stray, months).value, months)
    decreases |months|
  {
    if months != [] {
      NameThenParse(months[0]);
      var created, rest := Create(c, stray, months[0]).value, months[1..];
      CreateAllAdds(created, stray, rest);
      AddsOneMore(c, created, CreateAll(created, stray, rest).value, months);
    }
  }

  ghost predicate Adds(c: Catalogue, after: Catalogue, months: seq<Month>) {
    && (forall name :: name in after <==> name in c || Names(months, name))
    && (forall name | name in after ::
          after[name] == if name in c then c[name] else BoundsByName(name))
  }

  ghost predicate Names(months: seq<Month>, name: string) {
    exists i :: 0 <= i < |months| && name == PartitionName(months[i])
  }

  function BoundsByName(name: string): Bounds {
    if Monthly(name) then MonthBounds(ParsePartitionMonth(name).value) else Default
  }

  lemma AddsOneMore(c: Catalogue, created: Catalogue, after: Catalogue, months: seq<Month>)
    requires months != [] && Adds(created, after, months[1..]) &&
             MonthBounds(months[0]) == BoundsByName(PartitionName(months[0]))
    requires created ==
             if PartitionName(months[0]) in c then c else c[PartitionName(months[0]) := MonthBounds(months[0])]
    ensures Adds(c, after, months)
  {
    forall name
      ensures Names(months, name) <==> Names(months[1..], name) || name == PartitionName(months[0])
    {
      if i :| 0 <= i < |months| && name == PartitionName(months[i]) && i > 0 {
        assert months[1..][i - 1] == months[i];
      }
      if Names(months[1..], name) {
        var i :| 0 <= i < |months[1..]| && name == PartitionName(months[1..][i]);
        assert months[i + 1] == months[1..][i];
      }
    }
  }

  /** The names in the catalogue once creation has gone through, or was left out. */
  predicate Listed(c: Catalogue, name: string, ahead: nat, now: Instant, lockedEnsure: bool) {
    name in c || (lockedEnsure && InSight(name, now, ahead))
  }

  /** Retention runs in this pass and lets go of the name. */
  predicate LetGo(name: string, retention: int, now: Instant, lockedDrop: bool) {
    retention > 0 && lockedDrop && Outlived(name, now, retention)
  }

  /** A pass, whichever locks it wins: an error means nothing more is done; without one the
      catalogue holds exactly what was there or is in sight, less what is more than
      retention months old.  Retention refuses exactly if it would leave no month, which
      takes a pass that could not create any. */
  lemma PassExactly(
    c: Catalogue, retention: int, ahead: nat, now: Instant, stray: set<Month>, lockedEnsure: bool, lockedDrop: bool)
    requires InCalendar(now, ahead)
    ensures var (after, error) := PassWith(c, retention, ahead, now, stray, lockedEnsure, lockedDrop);
            && (error == Some(CreateFailed) <==> lockedEnsure && CreateAll(c, stray, Upcoming(now, ahead)).None?)
            && (error == Some(RetentionWouldEmptyTable) <==>
                  !lockedEnsure && retention > 0 && lockedDrop && NothingElse(c, retention, now))
            && (error.Some? ==> after == c)
            && (error.None? ==> ExactlyKept(c, after, retention, ahead, now, lockedEnsure, lockedDrop))
  {
    DropsOutlived(c, retention, now);
    if lockedEnsure && CreateAll(c, stray, Upcoming(now, ahead)).Some? {
      var c' := CreateAll(c, stray, Upcoming(now, ahead)).value;
      CreatedInSight(c, ahead, now, stray);
      DropsOutlived(c', retention, now);
      AddMonthsAdds(now.month, 0);
      InSightIff(PartitionName(Upcoming(now, ahead)[0]), now, ahead);
      assert PartitionName(Upcoming(now, ahead)[0]) in c';
    }
  }

  /** Retention by itself. */
  lemma DropsOutlived(c: Catalogue, retention: int, now: Instant)
    ensures var cutoff := RetentionCutoff(now, retention);
            && (WouldEmpty(c, cutoff) <==> NothingElse(c, retention, now))
            && (forall name :: name in DropAll(c, cutoff) <==> name in c && !Outlived(name, now, retention))
            && (forall name | name in DropAll(c, cutoff) :: DropAll(c, cutoff)[name] == c[name])
  {
    forall name
      ensures Expired(name, RetentionCutoff(now, retention)) <==> Outlived(name, now, retention)
    {
      ExpiredIsOutlived(name, now, retention);
    }
  }

  /** There are months, and all of them are too old. */
  ghost predicate NothingElse(c: Catalogue, retention: int, now: Instant) {
    && (exists name :: name in c && Monthly(name))
    && forall name | name in c && Monthly(name) :: Outlived(name, now, retention)
  }

  ghost predicate ExactlyKept(
    c: Catalogue, after: Catalogue, retention: int, ahead: nat, now: Instant, lockedEnsure: bool, lockedDrop: bool)
  {
    && (forall name :: name in after <==>
          Listed(c, name, ahead, now, lockedEnsure) && !LetGo(name, retention, now, lockedDrop))
    && (forall name | name in after ::
          after[name] == if name in c then c[name] else BoundsByName(name))
  }

  lemma CreatedInSight(c: Catalogue, ahead: nat, now: Instant, stray: set<Month>)
    requires InCalendar(now, ahead) && CreateAll(c, stray, Upcoming(now, ahead)).Some?
    ensures ExactlyKept(c, CreateAll(c, stray, Upcoming(now, ahead)).value, 0, ahead, now, true, false)
  {
    CreateAllAdds(c, stray, Upcoming(now, ahead));
    forall name
      ensures name in CreateAll(c, stray, Upcoming(now, ahead)).value <==> name in c || InSight(name, now, ahead)
    {
      InSightIff(name, now, ahead);
    }
  }

  /** What a pass leaves behind: no error over retention; every partition but the
      monthly ones more than retention months old, of which none survives; and each
      instant of the months it prepared covered exactly once. */
  ghost predicate Guarantees(before: Catalogue, result: (Catalogue, Option<Error>), retention: int, ahead: nat,
                             now: Instant)
  {
    var after := result.0;
    && result.1 == None
    && (forall name :: name in after <==>
          (name in before || InSight(name, now, ahead)) && !Outlived(name, now, retention))
    && (forall name | name in before && name in after :: after[name] == before[name])
    && (forall t: Instant | Index(now.month) <= Index(t.month) <= Index(now.month) + ahead :: CoveredOnce(after, t))
  }

  lemma PassGuarantees(c: Catalogue, retention: int, ahead: nat, now: Instant, stray: set<Month>)
    requires WellFormed(c) && retention > 0 && InCalendar(now, ahead)
    requires CreateAll(c, stray, Upcoming(now, ahead)).Some?
    ensures WellFormed(Pass(c, retention, ahead, now, stray).0)
    ensures Guarantees(c, Pass(c, retention, ahead, now, stray), retention, ahead, now)
  {
    PassExactly(c, retention, ahead, now, stray, true, true);
    KeptIsCovered(c, Pass(c, retention, ahead, now, stray).0, retention, ahead, now);
  }

  lemma KeptIsCovered(c: Catalogue, after: Catalogue, retention: int, ahead: nat, now: Instant)
    requires WellFormed(c) && retention > 0 && InCalendar(now, ahead)
    requires ExactlyKept(c, after, retention, ahead, now, true, true)
    ensures WellFormed(after)
    ensures forall t: Instant | Index(now.month) <= Index(t.month) <= Index(now.month) + ahead :: CoveredOnce(after, t)
  {
    forall i: nat | i <= ahead
      ensures PartitionName(Upcoming(now, ahead)[i]) in after
    {
      InSightIff(PartitionName(Upcoming(now, ahead)[i]), now, ahead);
    }
    UpcomingIsCovered(after, now, ahead);
  }

  lemma UpcomingIsCovered(c: Catalogue, now: Instant, ahead: nat)
    requires WellFormed(c) && InCalendar(now, ahead)
    requires forall i: nat | i <= ahead :: PartitionName(Upcoming(now, ahead)[i]) in c
    ensures forall t: Instant | Index(now.month) <= Index(t.month) <= Index(now.month) + ahead :: CoveredOnce(c, t)
  {
    forall t: Instant | Index(now.month) <= Index(t.month) <= Index(now.month) + ahead
      ensures CoveredOnce(c, t)
    {
      var i := Index(t.month) - Index(now.month);
      AddMonthsAdds(now.month, i);
      IndexIsInjective(t.month, Upcoming(now, ahead)[i]);
      CoveredByName(c, t);
    }
  }

  // ----- runs of passes -----

  datatype Occasion = Occasion(now: Instant, stray: set<Month>)

  ghost function CatalogueAfter(c: Catalogue, retention: int, ahead: nat, occasions: seq<Occasion>): Catalogue
    decreases |occasions|
  {
    if occasions == [] then c
    else
      CatalogueAfter(Pass(c, retention, ahead, occasions[0].now, occasions[0].stray).0, retention, ahead,
                     occasions[1..])
  }

  /** Creation succeeds in every pass of the run. */
  ghost predicate CreationsSucceed(c: Catalogue, retention: int, ahead: nat, occasions: seq<Occasion>)
    decreases |occasions|
  {
    occasions == [] ||
    (var o := occasions[0];
     && InCalendar(o.now, ahead)
     && CreateAll(c, o.stray, Upcoming(o.now, ahead)).Some?
     && CreationsSucceed(Pass(c, retention, ahead, o.now, o.stray).0, retention, ahead, occasions[1..]))
  }

  /** Passes follow one another at most ahead months apart on a clock that does not
      go back. */
  ghost predicate Regular(ahead: nat, occasions: seq<Occasion>) {
    forall i | 0 <= i < |occasions| - 1 ::
      Index(occasions[i].now.month) <= Index(occasions[i + 1].now.month) <= Index(occasions[i].now.month) + ahead
  }

  /** Pass k of a run. */
  ghost function PassOf(c: Catalogue, retention: int, ahead: nat, occasions: seq<Occasion>, k: nat)
    : (Catalogue, Option<Error>)
    requires k < |occasions|
  {
    Pass(CatalogueAfter(c, retention, ahead, occasions[..k]), retention, ahead, occasions[k].now, occasions[k].stray)
  }

  lemma {:induction false} LastPass(c: Catalogue, retention: int, ahead: nat, occasions: seq<Occasion>, o: Occasion)
    ensures CatalogueAfter(c, retention, ahead, occasions + [o]) ==
            Pass(CatalogueAfter(c, retention, ahead, occasions), retention, ahead, o.now, o.stray).0
    decreases |occasions|
  {
    if occasions == [] {
      assert ([] + [o])[1..] == [];
    } else {
      LastPass(Pass(c, retention, ahead, occasions[0].now, occasions[0].stray).0, retention, ahead, occasions[1..], o);
      assert (occasions + [o])[1..] == occasions[1..] + [o];
    }
  }

  lemma PassKeepsWellFormed(c: Catalogue, retention: int, ahead: nat, now: Instant, stray: set<Month>)
    requires WellFormed(c) && retention > 0 && InCalendar(now, ahead)
    requires CreateAll(c, stray, Upcoming(now, ahead)).Some?
    ensures WellFormed(Pass(c, retention, ahead, now, stray).0)
  {
    PassGuarantees(c, retention, ahead, now, stray);
  }

  lemma {:induction false} RunReaches(c: Catalogue, retention: int, ahead: nat, occasions: seq<Occasion>, k: nat)
    requires WellFormed(c) && retention > 0 && CreationsSucceed(c, retention, ahead, occasions) && k < |occasions|
    ensures var before, o := CatalogueAfter(c, retention, ahead, occasions[..k]), occasions[k];
            && WellFormed(before) && InCalendar(o.now, ahead)
            && CreateAll(before, o.stray, Upcoming(o.now, ahead)).Some?
    decreases k
  {
    if k > 0 {
      var o := occasions[0];
      PassKeepsWellFormed(c, retention, ahead, o.now, o.stray);
      var next, rest := Pass(c, retention, ahead, o.now, o.stray).0, occasions[1..];
      RunReaches(next, retention, ahead, rest, k - 1);
      assert occasions[..k][1..] == rest[..k - 1] && occasions[..k][0] == o && rest[k - 1] == occasions[k];
      assert CatalogueAfter(c, retention, ahead, occasions[..k]) ==
             CatalogueAfter(next, retention, ahead, rest[..k - 1]);
    }
  }

  lemma NextCatalogue(c: Catalogue, retention: int, ahead: nat, occasions: seq<Occasion>, k: nat)
    requires k < |occasions|
    ensures CatalogueAfter(c, retention, ahead, occasions[..k + 1]) == PassOf(c, retention, ahead, occasions, k).0
  {
    LastPass(c, retention, ahead, occasions[..k], occasions[k]);
    assert occasions[..k + 1] == occasions[..k] + [occasions[k]];
  }

  /** No pass of a run fails over retention, and each leaves its guarantees behind. */
  lemma RunGuarantees(c: Catalogue, retention: int, ahead: nat, occasions: seq<Occasion>, k: nat)
    requires WellFormed(c) && retention > 0 && CreationsSucceed(c, retention, ahead, occasions) && k < |occasions|
    ensures Guarantees(CatalogueAfter(c, retention, ahead, occasions[..k]), PassOf(c, retention, ahead, occasions, k),
                       retention, ahead, occasions[k].now)
    ensures CatalogueAfter(c, retention, ahead, occasions[..k + 1]) == PassOf(c, retention, ahead, occasions, k).0
  {
    RunReaches(c, retention, ahead, occasions, k);
    NextCatalogue(c, retention, ahead, occasions, k);
    PassGuarantees(CatalogueAfter(c, retention, ahead, occasions[..k]), retention, ahead, occasions[k].now,
                   occasions[k].stray);
  }

  /** Every instant is covered by exactly one monthly partition when it is reached:
      from one pass to the next, whatever month the next one falls into. */
  lemma CoveredWhenReached(c: Catalogue, retention: int, ahead: nat, occasions: seq<Occasion>, k: nat, t: Instant)
    requires WellFormed(c) && retention > 0 && CreationsSucceed(c, retention, ahead, occasions)
    requires Regular(ahead, occasions) && k + 1 < |occasions|
    requires Index(occasions[k].now.month) <= Index(t.month) <= Index(occasions[k + 1].now.month)
    ensures CoveredOnce(CatalogueAfter(c, retention, ahead, occasions[..k + 1]), t)
  {
    RunGuarantees(c, retention, ahead, occasions, k);
  }
}
