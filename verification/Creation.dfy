/** When the creation half of a maintenance pass goes through, and what depends on it
    (internal/adapters/audit/partitions.go). */
module Creation {
  import opened Maintenance
  import opened Partitions
  import opened Strings

  /** The month is there already, or nothing stands in its way: no row of it in the
      default partition and no other range over it. */
  ghost predicate CanCreate(c: Catalogue, stray: set<Month>, m: Month) {
    PartitionName(m) in c || (m !in stray && forall name | name in c :: !Overlaps(c[name], m))
  }

  lemma MonthsOverlapIff(a: Month, b: Month)
    ensures Overlaps(MonthBounds(a), b) <==> a == b
  {
    AddMonthsAdds(a, 1);
    AddMonthsAdds(b, 1);
    BeforeIsIndexOrder(a, AddMonths(b, 1));
    BeforeIsIndexOrder(b, AddMonths(a, 1));
    IndexIsInjective(a, b);
  }

  lemma NamesDiffer(a: Month, b: Month)
    requires FourDigitYear(a) && FourDigitYear(b) && a != b
    ensures PartitionName(a) != PartitionName(b)
  {
    NameThenParse(a);
    NameThenParse(b);
  }

  /** Months do not get in each other's way: the transaction goes through exactly if each
      month on its own could be created in the catalogue it started from. */
  lemma {:induction false} CreateAllIff(c: Catalogue, stray: set<Month>, months: seq<Month>)
    requires forall i | 0 <= i < |months| :: FourDigitYear(months[i])
    requires forall i, k | 0 <= i < k < |months| :: months[i] != months[k]
    ensures CreateAll(c, stray, months).Some? <==> forall i | 0 <= i < |months| :: CanCreate(c, stray, months[i])
    decreases |months|
  {
    if months != [] {
      var created := Create(c, stray, months[0]);
      assert created.Some? <==> CanCreate(c, stray, months[0]);
      if created.Some? {
        var rest := months[1..];
        CreateAllIff(created.value, stray, rest);
        forall i | 0 < i < |months|
          ensures CanCreate(created.value, stray, months[i]) <==> CanCreate(c, stray, months[i])
        {
          if PartitionName(months[0]) !in c {
            OtherMonthsStay(c, months[0], stray, months[i]);
          }
        }
        assert forall i | 0 < i < |months| :: months[i] == rest[i - 1];
      }
    }
  }

  lemma OtherMonthsStay(c: Catalogue, m: Month, stray: set<Month>, other: Month)
    requires FourDigitYear(m) && FourDigitYear(other) && m != other && PartitionName(m) !in c
    ensures CanCreate(c[PartitionName(m) := MonthBounds(m)], stray, other) <==> CanCreate(c, stray, other)
  {
    NamesDiffer(m, other);
    MonthsOverlapIff(m, other);
    var c' := c[PartitionName(m) := MonthBounds(m)];
    assert forall name | name in c && name != PartitionName(m) :: name in c' && c'[name] == c[name];
  }

  /** What the service itself ever makes: the default partition, and months under their
      own names. */
  ghost predicate MonthlyRanges(c: Catalogue) {
    forall name | name in c ::
      c[name] == if Monthly(name) then MonthBounds(ParsePartitionMonth(name).value) else Default
  }

  lemma NothingOverlaps(c: Catalogue, m: Month)
    requires MonthlyRanges(c) && FourDigitYear(m) && PartitionName(m) !in c
    ensures forall name | name in c :: !Overlaps(c[name], m)
  {
    forall name | name in c && c[name].Range?
      ensures !Overlaps(c[name], m)
    {
      ParseThenName(name);
      MonthsOverlapIff(ParsePartitionMonth(name).value, m);
    }
  }

  lemma UpcomingDiffer(now: Instant, ahead: nat)
    ensures forall i, k | 0 <= i < k < |Upcoming(now, ahead)| :: Upcoming(now, ahead)[i] != Upcoming(now, ahead)[k]
  {
    forall i, k | 0 <= i < k <= ahead
      ensures AddMonths(now.month, i) != AddMonths(now.month, k)
    {
      AddMonthsAdds(now.month, i);
      AddMonthsAdds(now.month, k);
    }
  }

  /** In such a catalogue no range gets in the way, so creation fails exactly over a month
      that is missing and has rows in the default partition. */
  lemma CreationIff(c: Catalogue, stray: set<Month>, now: Instant, ahead: nat)
    requires MonthlyRanges(c) && InCalendar(now, ahead)
    ensures CreateAll(c, stray, Upcoming(now, ahead)).Some? <==>
            forall m | m in Upcoming(now, ahead) :: PartitionName(m) in c || m !in stray
  {
    var months := Upcoming(now, ahead);
    UpcomingDiffer(now, ahead);
    CreateAllIff(c, stray, months);
    forall i | 0 <= i < |months|
      ensures CanCreate(c, stray, months[i]) <==> PartitionName(months[i]) in c || months[i] !in stray
    {
      if PartitionName(months[i]) !in c {
        NothingOverlaps(c, months[i]);
      }
    }
    assert forall m | m in months :: exists i :: 0 <= i < |months| && months[i] == m;
  }

  lemma {:induction false} CreateAllKeepsRanges(c: Catalogue, stray: set<Month>, months: seq<Month>)
    requires MonthlyRanges(c) && CreateAll(c, stray, months).Some?
    requires forall i | 0 <= i < |months| :: FourDigitYear(months[i])
    ensures MonthlyRanges(CreateAll(c, stray, months).value)
    decreases |months|
  {
    if months != [] {
      NameThenParse(months[0]);
      CreateAllKeepsRanges(Create(c, stray, months[0]).value, stray, months[1..]);
    }
  }

  lemma PassKeepsRanges(c: Catalogue, retention: int, ahead: nat, now: Instant, stray: set<Month>)
    requires MonthlyRanges(c) && InCalendar(now, ahead)
    ensures MonthlyRanges(Pass(c, retention, ahead, now, stray).0)
  {
    if CreateAll(c, stray, Upcoming(now, ahead)).Some? {
      CreateAllKeepsRanges(c, stray, Upcoming(now, ahead));
    }
  }

  /** No pass finds rows of a month it is to create in the default partition. */
  ghost predicate NothingStray(ahead: nat, occasions: seq<Occasion>) {
    forall k | 0 <= k < |occasions| ::
      && InCalendar(occasions[k].now, ahead)
      && forall m | m in Upcoming(occasions[k].now, ahead) :: m !in occasions[k].stray
  }

  /** That is all a run needs for every creation to go through. */
  lemma {:induction false} NothingStraySucceeds(c: Catalogue, retention: int, ahead: nat, occasions: seq<Occasion>)
    requires MonthlyRanges(c) && NothingStray(ahead, occasions)
    ensures CreationsSucceed(c, retention, ahead, occasions)
    decreases |occasions|
  {
    if occasions != [] {
      var o := occasions[0];
      CreationIff(c, o.stray, o.now, ahead);
      PassKeepsRanges(c, retention, ahead, o.now, o.stray);
      NothingStraySucceeds(Pass(c, retention, ahead, o.now, o.stray).0, retention, ahead, occasions[1..]);
    }
  }

  /** So every instant is covered once when it is reached, in terms of the calendar and
      of the rows in the default partition alone. */
  lemma CoveredWithoutStrayRows(c: Catalogue, retention: int, ahead: nat, occasions: seq<Occasion>, k: nat, t: Instant)
    requires MonthlyRanges(c) && retention > 0 && NothingStray(ahead, occasions)
    requires Regular(ahead, occasions) && k + 1 < |occasions|
    requires Index(occasions[k].now.month) <= Index(t.month) <= Index(occasions[k + 1].now.month)
    ensures CoveredOnce(CatalogueAfter(c, retention, ahead, occasions[..k + 1]), t)
  {
    NothingStraySucceeds(c, retention, ahead, occasions);
    CoveredWhenReached(c, retention, ahead, occasions, k, t);
  }

  // ----- where stray rows come from -----

  ghost predicate Covered(c: Catalogue, t: Instant) {
    exists name :: name in c && Covers(c[name], t)
  }

  /** The months of the rows that no range takes in. */
  ghost function Strays(c: Catalogue, rows: seq<Instant>): set<Month> {
    set i | 0 <= i < |rows| && !Covered(c, rows[i]) :: rows[i].month
  }

  /** arrivals[k] are the rows written after pass k, each at a time up to the next pass; a
      row strays into the default partition only if no range takes it in.  No row is there
      before the first pass. */
  ghost predicate RowsArrive(
    c: Catalogue, retention: int, ahead: nat, occasions: seq<Occasion>, arrivals: seq<seq<Instant>>)
  {
    && (occasions != [] ==> occasions[0].stray == {})
    && (forall k: nat | k + 1 < |occasions| :: ArrivesAfter(c, retention, ahead, occasions, arrivals, k))
  }

  ghost predicate ArrivesAfter(
    c: Catalogue, retention: int, ahead: nat, occasions: seq<Occasion>, arrivals: seq<seq<Instant>>, k: nat)
  {
    && k + 1 < |occasions| && k < |arrivals|
    && (forall i | 0 <= i < |arrivals[k]| ::
          Index(occasions[k].now.month) <= Index(arrivals[k][i].month) <= Index(occasions[k + 1].now.month))
    && occasions[k + 1].stray ==
       occasions[k].stray + Strays(CatalogueAfter(c, retention, ahead, occasions[..k + 1]), arrivals[k])
  }

  ghost predicate AllInCalendar(ahead: nat, occasions: seq<Occasion>) {
    forall k | 0 <= k < |occasions| :: InCalendar(occasions[k].now, ahead)
  }

  /** Regular passes keep the default partition empty by themselves. */
  lemma {:induction false} NoneEverStrays(
    c: Catalogue, retention: int, ahead: nat, occasions: seq<Occasion>, arrivals: seq<seq<Instant>>, k: nat)
    requires MonthlyRanges(c) && retention > 0 && AllInCalendar(ahead, occasions) && Regular(ahead, occasions)
    requires RowsArrive(c, retention, ahead, occasions, arrivals) && k < |occasions|
    ensures forall i | 0 <= i <= k :: occasions[i].stray == {}
  {
    if k > 0 {
      NoneEverStrays(c, retention, ahead, occasions, arrivals, k - 1);
      assert ArrivesAfter(c, retention, ahead, occasions, arrivals, k - 1);
      AllTakenIn(c, retention, ahead, occasions, arrivals[k - 1], k - 1);
    }
  }

  /** Rows between pass k and the next all find their month, if no pass so far met strays. */
  lemma AllTakenIn(c: Catalogue, retention: int, ahead: nat, occasions: seq<Occasion>, rows: seq<Instant>, k: nat)
    requires MonthlyRanges(c) && retention > 0 && AllInCalendar(ahead, occasions) && Regular(ahead, occasions)
    requires k + 1 < |occasions| && forall i | 0 <= i <= k :: occasions[i].stray == {}
    requires forall i | 0 <= i < |rows| ::
               Index(occasions[k].now.month) <= Index(rows[i].month) <= Index(occasions[k + 1].now.month)
    ensures Strays(CatalogueAfter(c, retention, ahead, occasions[..k + 1]), rows) == {}
  {
    var so := occasions[..k + 1];
    assert forall i | 0 <= i < |so| :: so[i] == occasions[i];
    NothingStraySucceeds(c, retention, ahead, so);
    RunGuarantees(c, retention, ahead, so, k);
    assert so[..k + 1] == so;
    var after := CatalogueAfter(c, retention, ahead, so);
    forall i | 0 <= i < |rows|
      ensures Covered(after, rows[i])
    {
      assert CoveredOnce(after, rows[i]);
    }
  }

  /** The loop closed: from a catalogue of months and a default partition without rows,
      regular passes never fail, never meet stray rows, and every instant is covered by
      exactly one monthly partition when it is reached. */
  lemma RegularPassesSucceed(
    c: Catalogue, retention: int, ahead: nat, occasions: seq<Occasion>, arrivals: seq<seq<Instant>>, k: nat, t: Instant)
    requires MonthlyRanges(c) && retention > 0 && AllInCalendar(ahead, occasions) && Regular(ahead, occasions)
    requires RowsArrive(c, retention, ahead, occasions, arrivals) && k + 1 < |occasions|
    requires Index(occasions[k].now.month) <= Index(t.month) <= Index(occasions[k + 1].now.month)
    ensures CreationsSucceed(c, retention, ahead, occasions)
    ensures forall i | 0 <= i < |occasions| :: occasions[i].stray == {}
    ensures CoveredOnce(CatalogueAfter(c, retention, ahead, occasions[..k + 1]), t)
  {
    NoneEverStrays(c, retention, ahead, occasions, arrivals, |occasions| - 1);
    NothingStraySucceeds(c, retention, ahead, occasions);
    CoveredWithoutStrayRows(c, retention, ahead, occasions, k, t);
  }

  // ----- what a failed creation stops -----

  /** A month more than retention months old is still there. */
  ghost predicate HasOutlived(c: Catalogue, now: Instant, retention: int) {
    exists name :: name in c && Outlived(name, now, retention)
  }

  /** The two halves are not as independent as their transactions: a month that is too old
      survives a pass with both locks exactly when creation fails. */
  lemma ExpiredSurviveIff(c: Catalogue, retention: int, ahead: nat, now: Instant, stray: set<Month>)
    requires WellFormed(c) && retention > 0 && InCalendar(now, ahead)
    ensures HasOutlived(Pass(c, retention, ahead, now, stray).0, now, retention) <==>
            CreateAll(c, stray, Upcoming(now, ahead)).None? && HasOutlived(c, now, retention)
  {
    if CreateAll(c, stray, Upcoming(now, ahead)).Some? {
      PassGuarantees(c, retention, ahead, now, stray);
    }
  }

  /** One month with rows in the default partition keeps a partition five years too old. */
  lemma WedgedMonthStopsRetention()
    ensures var past, month := YearMonth(2020, 1), YearMonth(2026, 1);
            var c: Catalogue := map[PartitionName(past) := MonthBounds(past)];
            Pass(c, 12, 0, Instant(month, 0), {month}) == (c, Some(CreateFailed))
            && Outlived(PartitionName(past), Instant(month, 0), 12)
  {
    var past, month := YearMonth(2020, 1), YearMonth(2026, 1);
    var c: Catalogue := map[PartitionName(past) := MonthBounds(past)];
    NameThenParse(past);
    NamesDiffer(past, month);
    AddMonthsAdds(month, 0);
    IndexIsInjective(AddMonths(month, 0), month);
    assert Upcoming(Instant(month, 0), 0) == [month];
  }
}
