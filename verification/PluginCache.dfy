/** The index that keeps unpacked plugins under a size limit
    (internal/adapters/registry/cache.go).  Each locked section of the source is a
    function on the index; the methods of the class perform those sections, and a
    run of sections in any order stands for any interleaving of goroutines. */
module PluginCache {

  /** A plugin version directory; times are instants of a clock that never goes back. */
  datatype Entry = Entry(size: nat, lastUsed: int)

  type Entries = map<string, Entry>

  datatype Index = Index(entries: Entries, total: int)

  // ----- the sum the total stands for -----

  ghost function Sum(entries: Entries): nat
    decreases |entries|
  {
    if entries == map[] then 0
    else
      var dir :| dir in entries;
      entries[dir].size + Sum(entries - {dir})
  }

  lemma {:induction false} SumWithout(entries: Entries, dir: string)
    requires dir in entries
    ensures Sum(entries) == entries[dir].size + Sum(entries - {dir})
    decreases |entries|
  {
    var first :| first in entries && Sum(entries) == entries[first].size + Sum(entries - {first});
    if first != dir {
      var rest := entries - {first};
      SumWithout(rest, dir);
      SumWithout(entries - {dir}, first);
      assert rest - {dir} == (entries - {dir}) - {first};
    }
  }

  lemma SumWith(entries: Entries, dir: string, entry: Entry)
    ensures Sum(entries[dir := entry]) == Sum(entries - {dir}) + entry.size
  {
    SumWithout(entries[dir := entry], dir);
    assert entries[dir := entry] - {dir} == entries - {dir};
  }

  // ----- the locked sections -----

  datatype Section =
    | Warm(dir: string, size: nat, lastUsed: int)
    | Touch(dir: string, now: int)
    | Record(dir: string, size: nat, now: int)
    | Forget(dir: string)

  function Perform(ix: Index, section: Section): Index {
    match section
    case Warm(dir, size, lastUsed) =>
      if dir in ix.entries then ix
      else Index(ix.entries[dir := Entry(size, lastUsed)], ix.total + size)
    case Touch(dir, now) =>
      if dir !in ix.entries then ix
      else ix.(entries := ix.entries[dir := ix.entries[dir].(lastUsed := now)])
    case Record(dir, size, now) =>
      var previous := if dir in ix.entries then ix.entries[dir].size else 0;
      Index(ix.entries[dir := Entry(size, now)], ix.total - previous + size)
    case Forget(dir) =>
      if dir !in ix.entries then ix
      else Index(ix.entries - {dir}, ix.total - ix.entries[dir].size)
  }

  function PerformAll(ix: Index, sections: seq<Section>): Index
    decreases |sections|
  {
    if sections == [] then ix else PerformAll(Perform(ix, sections[0]), sections[1..])
  }

  /** The total agrees with the map, and the map has no entry for the empty name,
      which nextVictim uses for "none". */
  ghost predicate Agrees(ix: Index) {
    ix.total == Sum(ix.entries) && "" !in ix.entries
  }

  lemma SectionKeepsAgreement(ix: Index, section: Section)
    requires Agrees(ix) && section.dir != ""
    ensures Agrees(Perform(ix, section))
  {
    var dir := section.dir;
    if dir in ix.entries {
      SumWithout(ix.entries, dir);
      SumWith(ix.entries, dir, ix.entries[dir].(lastUsed := 0));
    } else {
      assert ix.entries - {dir} == ix.entries;
    }
    match section
    case Warm(_, size, lastUsed) => SumWith(ix.entries, dir, Entry(size, lastUsed));
    case Touch(_, now) => if dir in ix.entries { SumWith(ix.entries, dir, ix.entries[dir].(lastUsed := now)); }
    case Record(_, size, now) => SumWith(ix.entries, dir, Entry(size, now));
    case Forget(_) =>
  }

  /** At every lock boundary of any interleaving the total is the sum of the sizes. */
  lemma {:induction false} EveryBoundaryAgrees(sections: seq<Section>, i: nat)
    requires i <= |sections|
    requires forall k | 0 <= k < |sections| :: sections[k].dir != ""
    ensures Agrees(PerformAll(Index(map[], 0), sections[..i]))
  {
    BoundaryAgrees(Index(map[], 0), sections[..i]);
  }

  lemma {:induction false} BoundaryAgrees(ix: Index, sections: seq<Section>)
    requires Agrees(ix)
    requires forall k | 0 <= k < |sections| :: sections[k].dir != ""
    ensures Agrees(PerformAll(ix, sections))
    decreases |sections|
  {
    if sections != [] {
      SectionKeepsAgreement(ix, sections[0]);
      BoundaryAgrees(Perform(ix, sections[0]), sections[1..]);
    }
  }

  // ----- what the entries hold -----

  /** Neither recorded anew nor forgotten after section i. */
  predicate Stays(sections: seq<Section>, dir: string, i: nat) {
    forall k | i < k < |sections| && sections[k].dir == dir :: sections[k].Warm? || sections[k].Touch?
  }

  /** The directory has been recorded, or found on disk, and not forgotten since. */
  predicate IsListed(sections: seq<Section>, dir: string) {
    exists i | 0 <= i < |sections| ::
      sections[i].dir == dir && (sections[i].Record? || sections[i].Warm?)
      && forall k | i < k < |sections| :: sections[k] != Forget(dir)
  }

  /** Section i measured the directory as it is now listed: the last to record it, or the
      scan that found it while it was not listed. */
  predicate MeasuredAt(sections: seq<Section>, dir: string, i: nat) {
    && i < |sections| && sections[i].dir == dir && Stays(sections, dir, i)
    && (sections[i].Record? || (sections[i].Warm? && !IsListed(sections[..i], dir)))
  }

  /** Section i is the last use of the directory: that, or a use of a listed directory,
      with no later one. */
  predicate LastUsedAt(sections: seq<Section>, dir: string, i: nat) {
    && i < |sections| && sections[i].dir == dir
    && (forall k | i < k < |sections| && sections[k].dir == dir :: sections[k].Warm?)
    && match sections[i]
       case Record(_, _, _) => true
       case Warm(_, _, _) => !IsListed(sections[..i], dir)
       case Touch(_, _) => IsListed(sections[..i], dir)
       case Forget(_) => false
  }

  function InstantOf(section: Section): int
    requires !section.Forget?
  {
    match section
    case Warm(_, _, lastUsed) => lastUsed
    case Touch(_, now) => now
    case Record(_, _, now) => now
  }

  /** What a run of sections, from an empty index on, makes of one directory. */
  ghost predicate EntryByRun(sections: seq<Section>, dir: string, entries: Entries) {
    && (dir in entries <==> IsListed(sections, dir))
    && SizeByRun(sections, dir, entries) && UseByRun(sections, dir, entries)
  }

  ghost predicate SizeByRun(sections: seq<Section>, dir: string, entries: Entries) {
    && (forall i: nat | MeasuredAt(sections, dir, i) :: dir in entries && entries[dir].size == sections[i].size)
    && (dir in entries ==> exists i: nat :: MeasuredAt(sections, dir, i))
  }

  ghost predicate UseByRun(sections: seq<Section>, dir: string, entries: Entries) {
    && (forall i: nat | LastUsedAt(sections, dir, i) ::
          dir in entries && entries[dir].lastUsed == InstantOf(sections[i]))
    && (dir in entries ==> exists i: nat :: LastUsedAt(sections, dir, i))
  }

  lemma LaterSection(sections: seq<Section>, section: Section, dir: string)
    ensures var more := sections + [section];
            && (IsListed(more, dir) <==>
                  section != Forget(dir) &&
                  (IsListed(sections, dir) || (section.dir == dir && (section.Record? || section.Warm?))))
            && (forall i: nat | i < |sections| ::
                  MeasuredAt(more, dir, i) <==>
                  MeasuredAt(sections, dir, i) && (section.dir == dir ==> section.Warm? || section.Touch?))
            && (forall i: nat | i < |sections| ::
                  LastUsedAt(more, dir, i) <==>
                  LastUsedAt(sections, dir, i) && (section.dir == dir ==> section.Warm?))
  {
    var more := sections + [section];
    var n := |sections|;
    assert more[n] == section && forall i | 0 <= i < n :: more[i] == sections[i] && more[..i] == sections[..i];
    if IsListed(sections, dir) && section != Forget(dir) {
      var i :| 0 <= i < n && sections[i].dir == dir && (sections[i].Record? || sections[i].Warm?)
        && forall k | i < k < n :: sections[k] != Forget(dir);
      assert more[i].dir == dir;
    }
  }

  /** What a run of sections on an empty index leaves of one directory: it is there exactly
      if it is listed, with the size that was measured last and the instant it was last used. */
  lemma {:induction false} EntryFollowsRun(sections: seq<Section>, dir: string)
    ensures EntryByRun(sections, dir, PerformAll(Index(map[], 0), sections).entries)
    decreases |sections|
  {
    if sections != [] {
      var n := |sections| - 1;
      assert sections == sections[..n] + [sections[n]];
      EntryFollowsRun(sections[..n], dir);
      PerformLast(Index(map[], 0), sections[..n], sections[n]);
      LaterSection(sections[..n], sections[n], dir);
      EntryStep(sections[..n], sections[n], dir, PerformAll(Index(map[], 0), sections[..n]));
    }
  }

  lemma EntryStep(sections: seq<Section>, section: Section, dir: string, ix: Index)
    requires EntryByRun(sections, dir, ix.entries)
    ensures EntryByRun(sections + [section], dir, Perform(ix, section).entries)
  {
    LaterSection(sections, section, dir);
    SizeStep(sections, section, dir, ix);
    UseStep(sections, section, dir, ix);
  }

  lemma SizeStep(sections: seq<Section>, section: Section, dir: string, ix: Index)
    requires (dir in ix.entries <==> IsListed(sections, dir)) && SizeByRun(sections, dir, ix.entries)
    ensures SizeByRun(sections + [section], dir, Perform(ix, section).entries)
  {
    LaterSection(sections, section, dir);
    var more, n := sections + [section], |sections|;
    assert more[n] == section && more[..n] == sections;
    assert forall i: nat | i < n :: more[i] == sections[i];
    if dir in Perform(ix, section).entries {
      if dir in ix.entries {
        var i: nat :| MeasuredAt(sections, dir, i);
        assert MeasuredAt(more, dir, i) || MeasuredAt(more, dir, n);
      } else {
        assert MeasuredAt(more, dir, n);
      }
    }
  }

  lemma UseStep(sections: seq<Section>, section: Section, dir: string, ix: Index)
    requires (dir in ix.entries <==> IsListed(sections, dir)) && UseByRun(sections, dir, ix.entries)
    ensures UseByRun(sections + [section], dir, Perform(ix, section).entries)
  {
    LaterSection(sections, section, dir);
    var more, n := sections + [section], |sections|;
    assert more[n] == section && more[..n] == sections;
    assert forall i: nat | i < n :: more[i] == sections[i];
    if dir in Perform(ix, section).entries {
      if dir in ix.entries {
        var i: nat :| LastUsedAt(sections, dir, i);
        assert LastUsedAt(more, dir, i) || LastUsedAt(more, dir, n);
      } else {
        assert LastUsedAt(more, dir, n);
      }
    }
  }

  // ----- eviction -----

  /** dir may be evicted next: the cache is over the limit, dir was last used no
      later than the cutoff, and nothing in the whole cache was last used before it. */
  ghost predicate IsVictim(entries: Entries, limit: int, cutoff: int, dir: string) {
    && dir in entries
    && Sum(entries) > limit
    && entries[dir].lastUsed <= cutoff
    && (forall d | d in entries :: entries[dir].lastUsed <= entries[d].lastUsed)
  }

  ghost predicate AllWithin(cutoffs: seq<int>, from: int, to: int) {
    forall i | 0 <= i < |cutoffs| :: from <= cutoffs[i] <= to
  }

  /** victims were removed one after another, each a victim when its turn came;
      cutoffs are the cutoffs of those turns. */
  ghost predicate Evicted(entries: Entries, limit: int, cutoffs: seq<int>, victims: seq<string>)
    decreases |victims|
  {
    && |cutoffs| == |victims|
    && (victims != [] ==>
          && IsVictim(entries, limit, cutoffs[0], victims[0])
          && Evicted(entries - {victims[0]}, limit, cutoffs[1..], victims[1..]))
  }

  ghost function Without(entries: Entries, victims: seq<string>): Entries
    decreases |victims|
  {
    if victims == [] then entries else Without(entries - {victims[0]}, victims[1..])
  }

  lemma {:induction false} EvictOne(
    entries: Entries, limit: int, cutoffs: seq<int>, victims: seq<string>, cutoff: int, dir: string)
    requires Evicted(entries, limit, cutoffs, victims)
    requires IsVictim(Without(entries, victims), limit, cutoff, dir)
    ensures Evicted(entries, limit, cutoffs + [cutoff], victims + [dir])
    ensures Without(entries, victims + [dir]) == Without(entries, victims) - {dir}
    decreases |victims|
  {
    if victims == [] {
      assert ([] + [dir])[1..] == [] && ([] + [cutoff])[1..] == [];
      assert cutoffs + [cutoff] == [cutoff] && victims + [dir] == [dir];
    } else {
      EvictOne(entries - {victims[0]}, limit, cutoffs[1..], victims[1..], cutoff, dir);
      assert (victims + [dir])[1..] == victims[1..] + [dir];
      assert (cutoffs + [cutoff])[1..] == cutoffs[1..] + [cutoff];
    }
  }

  lemma {:induction false} SurvivorsAreKept(entries: Entries, victims: seq<string>)
    ensures forall d :: d in Without(entries, victims) <==> d in entries && d !in victims
    ensures forall d | d in Without(entries, victims) :: Without(entries, victims)[d] == entries[d]
    decreases |victims|
  {
    if victims != [] {
      SurvivorsAreKept(entries - {victims[0]}, victims[1..]);
      assert forall d :: d in victims <==> d == victims[0] || d in victims[1..];
    }
  }

  /** Least recently used first: a victim was last used no later than any victim
      after it and than any survivor. */
  lemma {:induction false} OldestFirst(entries: Entries, limit: int, cutoffs: seq<int>, victims: seq<string>, i: nat)
    requires Evicted(entries, limit, cutoffs, victims) && i < |victims|
    ensures victims[i] in entries && entries[victims[i]].lastUsed <= cutoffs[i]
    ensures forall k | i < k < |victims| ::
              victims[k] in entries && entries[victims[i]].lastUsed <= entries[victims[k]].lastUsed
    ensures forall d | d in entries && d !in victims :: entries[victims[i]].lastUsed <= entries[d].lastUsed
    ensures Sum(Without(entries, victims[..i])) > limit
    decreases |victims|
  {
    var rest := entries - {victims[0]};
    if i > 0 {
      OldestFirst(rest, limit, cutoffs[1..], victims[1..], i - 1);
      assert forall d | d in entries && d !in victims :: d in rest && d !in victims[1..];
      assert victims[..i][1..] == victims[1..][..i - 1] && victims[..i][0] == victims[0];
    } else {
      forall k | 0 < k < |victims|
        ensures victims[k] in entries
      {
        OldestFirst(rest, limit, cutoffs[1..], victims[1..], k - 1);
      }
    }
  }

  const MIN_EVICTION_AGE := 300_000_000_000

  // ----- an eviction that others interleave with -----

  /** Section i, when its turn comes, leaves the directory in use after the cutoff. */
  predicate RenewsAt(ix: Index, between: seq<Section>, i: nat, dir: string, cutoff: int) {
    i < |between| && between[i].dir == dir &&
    (var present := dir in PerformAll(ix, between[..i]).entries;
     match between[i]
     case Touch(_, now) => present && now > cutoff
     case Record(_, _, now) => now > cutoff
     case Warm(_, _, lastUsed) => !present && lastUsed > cutoff
     case Forget(_) => false)
  }

  /** A renewal that no later eviction of the directory undoes. */
  predicate StaysRenewed(ix: Index, between: seq<Section>, i: nat, dir: string, cutoff: int) {
    RenewsAt(ix, between, i, dir, cutoff) && forall k | i < k < |between| :: between[k] != Forget(dir)
  }

  /** Between the choice of a victim and the section that forgets it any others may run,
      evictions of the same directory among them.  The entry then forgotten, if there is
      one, is younger than the cutoff exactly if one of them renewed it for good.  Uses
      come after the choice, so they are later than its cutoff. */
  lemma {:induction false} KeepsAgeIff(ix: Index, between: seq<Section>, dir: string, cutoff: int)
    requires dir in ix.entries ==> ix.entries[dir].lastUsed <= cutoff
    requires forall i | 0 <= i < |between| && between[i].dir == dir && (between[i].Touch? || between[i].Record?) ::
               between[i].now > cutoff
    ensures var entries := PerformAll(ix, between).entries;
            dir in entries && entries[dir].lastUsed > cutoff <==>
            exists i: nat :: StaysRenewed(ix, between, i, dir, cutoff)
    decreases |between|
  {
    if between != [] {
      var n := |between| - 1;
      var before, last := between[..n], between[n];
      assert between == before + [last];
      KeepsAgeIff(ix, before, dir, cutoff);
      PerformLast(ix, before, last);
      forall i: nat | i < n
        ensures StaysRenewed(ix, between, i, dir, cutoff) <==>
                StaysRenewed(ix, before, i, dir, cutoff) && last != Forget(dir)
      {
        EarlierRenewal(ix, before, last, i, dir, cutoff);
      }
      if RenewsAt(ix, between, n, dir, cutoff) {
        assert StaysRenewed(ix, between, n, dir, cutoff);
      }
      if i: nat :| StaysRenewed(ix, before, i, dir, cutoff) && last != Forget(dir) {
        assert StaysRenewed(ix, between, i, dir, cutoff);
      }
    }
  }

  lemma EarlierRenewal(ix: Index, before: seq<Section>, last: Section, i: nat, dir: string, cutoff: int)
    requires i < |before|
    ensures StaysRenewed(ix, before + [last], i, dir, cutoff) <==>
            StaysRenewed(ix, before, i, dir, cutoff) && last != Forget(dir)
  {
    var between := before + [last];
    assert between[..i] == before[..i] && between[i] == before[i];
    if StaysRenewed(ix, between, i, dir, cutoff) {
      assert between[|before|] == last;
      assert forall k | i < k < |before| :: before[k] == between[k];
    }
  }

  /** A victim chosen while over the limit and in use again a moment later: it is removed
      at an age of zero. */
  lemma RenewedVictimIsRemoved(now: int, minAge: nat)
    ensures var ix := Index(map["old" := Entry(2, now - minAge)], 2);
            && IsVictim(ix.entries, 1, now - minAge, "old")
            && var used := Perform(ix, Touch("old", now));
               "old" in used.entries && used.entries["old"].lastUsed == now &&
                 Perform(used, Forget("old")).entries == map[]
  {
    var entries: Entries := map["old" := Entry(2, now - minAge)];
    SumWithout(entries, "old");
    assert entries - {"old"} == map[];
  }

  class PluginCache {
    const limit: int
    const minAge: int
    var entries: Entries
    var total: int
    var clock: int

    /** newPluginCache; a limit of zero or less means no cache at all. */
    constructor (maxBytes: int, minAge: int, now: int)
      requires maxBytes > 0
      ensures Agrees(State()) && entries == map[] && limit == maxBytes
      ensures this.minAge == (if minAge > 300_000_000_000 then minAge else 300_000_000_000) && clock == now
    {
      this.limit := maxBytes;
      this.minAge := if minAge > MIN_EVICTION_AGE then minAge else MIN_EVICTION_AGE;
      entries, total, clock := map[], 0, now;
    }

    ghost function State(): Index
      reads this
    {
      Index(entries, total)
    }

    /** time.Now: any instant not before the last one. */
    method Now() returns (now: int)
      modifies this`clock
      ensures now == clock && old(clock) <= clock
    {
      var passed: int :| passed >= 0;
      clock := clock + passed;
      now := clock;
    }

    method TouchDir(dir: string)
      modifies this
      ensures old(clock) <= clock && State() == Perform(old(State()), Touch(dir, clock))
      ensures total == old(total) && entries.Keys == old(entries.Keys)
      ensures dir in entries ==> entries[dir] == Entry(old(entries)[dir].size, clock)
      ensures forall d | d in entries && d != dir :: entries[d] == old(entries)[d]
    {
      if dir in entries {
        var now := Now();
        entries := entries[dir := entries[dir].(lastUsed := now)];
      }
    }

    method ForgetDir(dir: string)
      modifies this
      ensures clock == old(clock) && State() == Perform(old(State()), Forget(dir))
      ensures entries == old(entries) - {dir}
      ensures total == old(total) - if dir in old(entries) then old(entries)[dir].size else 0
    {
      if dir in entries {
        var entry := entries[dir];
        entries := entries - {dir};
        total := total - entry.size;
      }
    }

    /** Picks the oldest evictable entry, whatever order the map is walked in. */
    method NextVictim() returns (victim: string, ok: bool)
      requires Agrees(State())
      modifies this`clock
      ensures old(clock) <= clock
      ensures ok ==> IsVictim(entries, limit, clock - minAge, victim)
      ensures !ok ==> total <= limit || forall d | d in entries :: entries[d].lastUsed > clock - minAge
    {
      if total <= limit {
        return "", false;
      }

      var now := Now();
      var cutoff := now - minAge;
      var oldestDir, oldestTime := "", 0;
      var unseen := entries.Keys;
      while unseen != {}
        invariant unseen <= entries.Keys
        invariant oldestDir == "" ==> forall d | d in entries && d !in unseen :: entries[d].lastUsed > cutoff
        invariant oldestDir != "" ==>
                    && oldestDir in entries && entries[oldestDir].lastUsed == oldestTime <= cutoff
                    && (forall d | d in entries && d !in unseen :: oldestTime <= entries[d].lastUsed)
        decreases |unseen|
      {
        var dir :| dir in unseen;
        unseen := unseen - {dir};
        var entry := entries[dir];
        if entry.lastUsed > cutoff {
          continue;
        }
        if oldestDir == "" || entry.lastUsed < oldestTime {
          oldestDir, oldestTime := dir, entry.lastUsed;
        }
      }

      return oldestDir, oldestDir != "";
    }

    /** A solo eviction: least recently used first, only while over the limit, never
        an entry younger than minAge at that moment, and at the end the cache fits or
        holds nothing old enough. */
    method Evict() returns (victims: seq<string>, ghost cutoffs: seq<int>)
      requires Agrees(State())
      modifies this
      ensures Agrees(State()) && old(clock) <= clock
      ensures Evicted(old(entries), limit, cutoffs, victims)
      ensures AllWithin(cutoffs, old(clock) - minAge, clock - minAge)
      ensures entries == Without(old(entries), victims)
      ensures total <= limit || forall d | d in entries :: entries[d].lastUsed > clock - minAge
    {
      victims, cutoffs := [], [];
      while true
        invariant Agrees(State()) && old(clock) <= clock
        invariant Evicted(old(entries), limit, cutoffs, victims)
        invariant AllWithin(cutoffs, old(clock) - minAge, clock - minAge)
        invariant entries == Without(old(entries), victims)
        decreases |entries|
      {
        var victim, ok := NextVictim();
        if !ok {
          return;
        }

        EvictOne(old(entries), limit, cutoffs, victims, clock - minAge, victim);
        SectionKeepsAgreement(State(), Forget(victim));
        ForgetDir(victim);
        victims, cutoffs := victims + [victim], cutoffs + [clock - minAge];
      }
    }

    /** Records a freshly unpacked directory of the measured size, then evicts. */
    method Add(dir: string, size: nat)
      returns (victims: seq<string>, ghost addedAt: int, ghost cutoffs: seq<int>)
      requires Agrees(State()) && dir != ""
      modifies this
      ensures Agrees(State()) && old(clock) <= clock
      ensures old(clock) <= addedAt <= clock
      ensures AllWithin(cutoffs, addedAt - minAge, clock - minAge)
      ensures var recorded := Perform(old(State()), Record(dir, size, addedAt)).entries;
              Evicted(recorded, limit, cutoffs, victims) && entries == Without(recorded, victims)
      ensures dir in entries ==> entries[dir] == Entry(size, addedAt)
      ensures forall d | d in entries && d != dir :: d in old(entries) && entries[d] == old(entries)[d]
      ensures forall d | d in old(entries) && d !in victims :: d in entries
      ensures dir !in victims ==> dir in entries
      ensures total <= limit || forall d | d in entries :: entries[d].lastUsed > clock - minAge
    {
      ghost var before := State();
      if dir in entries {
        total := total - entries[dir].size;
      }
      var now := Now();
      entries := entries[dir := Entry(size, now)];
      total := total + size;
      addedAt := now;
      SectionKeepsAgreement(before, Record(dir, size, now));
      victims, cutoffs := Evict();
      SurvivorsAreKept(Perform(before, Record(dir, size, now)).entries, victims);
    }

    /** The section of the scan that indexes one directory. */
    method WarmDir(dir: string, size: nat, lastUsed: int)
      modifies this
      ensures clock == old(clock) && State() == Perform(old(State()), Warm(dir, size, lastUsed))
      ensures entries == if dir in old(entries) then old(entries) else old(entries)[dir := Entry(size, lastUsed)]
    {
      if dir !in entries {
        entries := entries[dir := Entry(size, lastUsed)];
        total := total + size;
      }
    }

    /** Indexes what the scan found on disk as least recently used, then evicts. */
    method WarmUp(dirs: seq<(string, nat)>)
      returns (victims: seq<string>, ghost scannedAt: int, ghost cutoffs: seq<int>)
      requires Agrees(State())
      requires forall i | 0 <= i < |dirs| :: dirs[i].0 != ""
      modifies this
      ensures Agrees(State()) && old(clock) <= clock
      ensures old(clock) <= scannedAt <= clock
      ensures AllWithin(cutoffs, scannedAt - minAge, clock - minAge)
      ensures var warmed := PerformAll(old(State()), Warmings(dirs, scannedAt - minAge)).entries;
              Evicted(warmed, limit, cutoffs, victims) && entries == Without(warmed, victims)
      ensures WarmedSurvivors(old(entries), entries, dirs, scannedAt - minAge, victims)
      ensures total <= limit || forall d | d in entries :: entries[d].lastUsed > clock - minAge
    {
      var now := Now();
      scannedAt := now;
      for i := 0 to |dirs|
        invariant clock == now && Agrees(State())
        invariant State() == PerformAll(old(State()), Warmings(dirs[..i], now - minAge))
      {
        var (dir, size) := dirs[i];
        SectionKeepsAgreement(State(), Warm(dir, size, now - minAge));
        WarmDir(dir, size, now - minAge);
        OneMoreWarming(old(State()), dirs, i, now - minAge);
      }
      assert dirs[..|dirs|] == dirs;
      WarmedEntries(old(State()), dirs, now - minAge, |dirs|);
      ghost var warmed := entries;
      victims, cutoffs := Evict();
      WarmedThenEvicted(old(entries), warmed, dirs, now - minAge, victims);
    }
  }

  function Warmings(dirs: seq<(string, nat)>, lastUsed: int): (sections: seq<Section>) {
    seq(|dirs|, i requires 0 <= i < |dirs| => Warm(dirs[i].0, dirs[i].1, lastUsed))
  }

  /** The scan finds the directory at i for the first time. */
  predicate FirstFound(dirs: seq<(string, nat)>, dir: string, i: nat) {
    i < |dirs| && dirs[i].0 == dir && forall k | 0 <= k < i :: dirs[k].0 != dir
  }

  /** The entry for a directory that the scan found among its first n: the size it had when
      it was found first. */
  ghost predicate FoundAs(dirs: seq<(string, nat)>, n: nat, dir: string, lastUsed: int, entry: Entry) {
    exists i: nat :: i < n && FirstFound(dirs, dir, i) && entry == Entry(dirs[i].1, lastUsed)
  }

  /** What the scan adds to an index, and what it leaves alone. */
  ghost predicate Warmed(before: Entries, after: Entries, dirs: seq<(string, nat)>, n: nat, lastUsed: int)
    requires n <= |dirs|
  {
    && (forall d | d in before :: d in after && after[d] == before[d])
    && (forall i | 0 <= i < n :: dirs[i].0 in after)
    && (forall d | d in after && d !in before :: FoundAs(dirs, n, d, lastUsed, after[d]))
  }

  lemma {:induction false} WarmedEntries(ix: Index, dirs: seq<(string, nat)>, lastUsed: int, n: nat)
    requires n <= |dirs|
    ensures Warmed(ix.entries, PerformAll(ix, Warmings(dirs[..n], lastUsed)).entries, dirs, n, lastUsed)
  {
    if n == 0 {
      assert Warmings(dirs[..0], lastUsed) == [];
    } else {
      var k: nat := n - 1;
      WarmedEntries(ix, dirs, lastUsed, k);
      OneMoreWarming(ix, dirs, k, lastUsed);
      WarmedOnce(ix.entries, PerformAll(ix, Warmings(dirs[..k], lastUsed)), dirs, k, lastUsed);
    }
  }

  lemma WarmedOnce(before: Entries, so: Index, dirs: seq<(string, nat)>, n: nat, lastUsed: int)
    requires n < |dirs| && Warmed(before, so.entries, dirs, n, lastUsed)
    ensures Warmed(before, Perform(so, Warm(dirs[n].0, dirs[n].1, lastUsed)).entries, dirs, n + 1, lastUsed)
  {
    var after := Perform(so, Warm(dirs[n].0, dirs[n].1, lastUsed)).entries;
    forall d | d in after && d !in before
      ensures FoundAs(dirs, n + 1, d, lastUsed, after[d])
    {
      if d !in so.entries {
        assert FirstFound(dirs, d, n);
      }
    }
  }

  /** And of that, what an eviction leaves. */
  ghost predicate WarmedSurvivors(before: Entries, after: Entries, dirs: seq<(string, nat)>, lastUsed: int,
                                  victims: seq<string>)
  {
    && (forall d | d in after ::
          if d in before then after[d] == before[d] else FoundAs(dirs, |dirs|, d, lastUsed, after[d]))
    && (forall d | d in before && d !in victims :: d in after)
    && (forall i | 0 <= i < |dirs| && dirs[i].0 !in victims :: dirs[i].0 in after)
  }

  lemma WarmedThenEvicted(before: Entries, warmed: Entries, dirs: seq<(string, nat)>, lastUsed: int,
                          victims: seq<string>)
    requires Warmed(before, warmed, dirs, |dirs|, lastUsed)
    ensures WarmedSurvivors(before, Without(warmed, victims), dirs, lastUsed, victims)
  {
    SurvivorsAreKept(warmed, victims);
  }

  lemma OneMoreWarming(ix: Index, dirs: seq<(string, nat)>, i: nat, lastUsed: int)
    requires i < |dirs|
    ensures PerformAll(ix, Warmings(dirs[..i + 1], lastUsed)) ==
            Perform(PerformAll(ix, Warmings(dirs[..i], lastUsed)), Warm(dirs[i].0, dirs[i].1, lastUsed))
  {
    PerformLast(ix, Warmings(dirs[..i], lastUsed), Warm(dirs[i].0, dirs[i].1, lastUsed));
    assert Warmings(dirs[..i + 1], lastUsed) ==
           Warmings(dirs[..i], lastUsed) + [Warm(dirs[i].0, dirs[i].1, lastUsed)];
  }

  lemma {:induction false} PerformLast(ix: Index, sections: seq<Section>, section: Section)
    ensures PerformAll(ix, sections + [section]) == Perform(PerformAll(ix, sections), section)
    decreases |sections|
  {
    if sections == [] {
      assert ([] + [section])[1..] == [];
    } else {
      PerformLast(Perform(ix, sections[0]), sections[1..], section);
      assert (sections + [section])[1..] == sections[1..] + [section];
    }
  }
}
