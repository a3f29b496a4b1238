/**
 The cleanup journal: entries are merged into it before their chunks exist and leave it only
 after their chunks are gone, so that an interruption at any call can be retried.
 */
module CleanupJournal {
  import opened Basics
  import opened Json
  import opened CacheFormat
  import opened Keyring
  import opened CacheState
  import CacheFormatLaws

  // ----- merging -----

  /** The entries of `merged`, then those of `group` that it lacks. */
  function Appended(merged: seq<Entry>, group: seq<Entry>): (all: seq<Entry>)
    ensures forall e :: e in all <==> e in merged || e in group
    ensures Distinct(merged) ==> Distinct(all)
    decreases |group|
  {
    if group == [] then merged
    else Appended(if group[0] in merged then merged else merged + [group[0]], group[1..])
  }

  function Merge(first: seq<Entry>, second: seq<Entry>): (r: Result<seq<Entry>>)
    ensures r.Ok? ==> Distinct(r.value) && ConsistentCounts(r.value) && |r.value| <= MAX_CLEANUP_ENTRIES
    ensures r.Ok? ==> forall e :: e in r.value <==> e in first || e in second
    ensures !r.IsInterrupted()
  {
    if !Distinct(first) || !Distinct(second) then Err(InvalidState)
    else
      var all := Appended(first, second);
      if !ConsistentCounts(all) then Err(InvalidState)
      else if |all| > MAX_CLEANUP_ENTRIES then Err(CannotSave)
      else Ok(all)
  }

  lemma {:induction false} DistinctSize(entries: seq<Entry>)
    requires Distinct(entries)
    ensures |set e | e in entries| == |entries|
  {
    if entries != [] {
      var n := |entries| - 1;
      var rest := entries[..n];
      DistinctSize(rest);
      assert entries == rest + [entries[n]];
      assert (set e | e in entries) == (set e | e in rest) + {entries[n]};
      assert entries[n] !in rest;
    }
  }

  /** A merge is refused for a repetition within a group, for contradicting counts, and for its size, and only then. */
  lemma MergeExactly(first: seq<Entry>, second: seq<Entry>)
    ensures Merge(first, second).Ok? <==>
              && Distinct(first) && Distinct(second) && ConsistentCounts(first + second)
              && |set e | e in first + second| <= MAX_CLEANUP_ENTRIES
  {
    hide Appended, Distinct;
    var all := Appended(first, second);
    assert forall e :: e in first + second <==> e in all;
    assert (set e | e in first + second) == (set e | e in all);
    if Distinct(first) {
      DistinctSize(all);
    }
  }

  method MergeEntries(first: seq<Entry>, second: seq<Entry>) returns (r: Result<seq<Entry>>)
    ensures r == Merge(first, second)
  {
    var merged := first;
    if !Distinct(first) || !Distinct(second) {
      return Err(InvalidState);
    }
    for i := 0 to |second|
      invariant Appended(first, second) == Appended(merged, second[i..])
    {
      var entry := second[i];
      assert second[i..][1..] == second[i + 1..];
      if entry !in merged {
        merged := merged + [entry];
      }
    }
    assert merged == Appended(first, second);
    var consistent := HaveConsistentCounts(merged);
    if !consistent {
      return Err(InvalidState);
    }
    if |merged| > MAX_CLEANUP_ENTRIES {
      return Err(CannotSave);
    }
    return Ok(merged);
  }

  // ----- reading and writing the journal -----

  function ReadPending(s: Store): Result<seq<Entry>> {
    if Readable(s) then Ok(Pending(s)) else Err(InvalidState)
  }

  method PendingCleanup(k: CredentialStore) returns (r: Result<seq<Entry>>)
    modifies k`log
    ensures k.log == old(k.log) + [Call(Reading, Journal)] && NoReaping(old(k.log), k.log)
    ensures StopsAtLast(k.schedule, old(k.log), k.log, r.IsInterrupted())
    ensures r == Reply(k.schedule(|old(k.log)|), ReadPending(k.entries))
  {
    hide JournalIn;
    var serialized :- k.GetPassword(Journal);
    if serialized.None? {
      return Ok([]);
    }
    var entries := JournalIn(serialized.value);
    if entries.None? {
      return Err(InvalidState);
    }
    return Ok(entries.value);
  }

  method WriteCleanup(k: CredentialStore, entries: seq<Entry>) returns (r: Result<()>)
    requires WellFormed(entries)
    modifies k
    ensures k.log == old(k.log) + [Call(Writing, Journal)] && NoReaping(old(k.log), k.log)
    ensures StopsAtLast(k.schedule, old(k.log), k.log, r.IsInterrupted())
    ensures r == Reply(k.schedule(|old(k.log)|), Ok(()))
    ensures k.entries == if Applies(k.schedule(|old(k.log)|))
                         then old(k.entries)[Journal := JournalText(entries)] else old(k.entries)
  {
    hide JournalText;
    JournalFits(entries);
    r := k.SetPassword(Journal, JournalText(entries));
  }

  lemma JournalFits(entries: seq<Entry>)
    requires WellFormed(entries)
    ensures Utf16Bytes(JournalText(entries)) <= CREDENTIAL_MAX_BYTES
  {
    hide JournalText, ManifestText, WellFormed;
    var e := Entry(seq(32, _ => '0'), 1);
    assert ValidEntry(e);
    CacheFormatLaws.DocumentsFit(e, entries);
  }

  /** What recording more entries would leave in the journal. */
  function Recorded(s: Store, added: seq<Entry>): (r: Result<seq<Entry>>)
    requires AllValid(added)
    ensures r.Ok? ==> WellFormed(r.value) && forall e :: e in r.value <==> e in Pending(s) || e in added
  {
    if Readable(s) then Merge(Pending(s), added) else Err(InvalidState)
  }

  method RecordCleanup(k: CredentialStore, added: seq<Entry>) returns (r: Result<()>)
    requires AllValid(added)
    modifies k
    ensures StopsAtLast(k.schedule, old(k.log), k.log, r.IsInterrupted())
    ensures k.entries == old(k.entries)
      || (Recorded(old(k.entries), added).Ok?
          && k.entries == old(k.entries)[Journal := JournalText(Recorded(old(k.entries), added).value)])
    ensures r.Ok? ==> Recorded(old(k.entries), added).Ok?
                      && k.entries == old(k.entries)[Journal := JournalText(Recorded(old(k.entries), added).value)]
    ensures r.Err? && !r.problem.Unavailable? && !r.problem.Interrupted? ==> k.entries == old(k.entries)
    ensures NoReaping(old(k.log), k.log)
    ensures Faultless(k.schedule, old(k.log), k.log) ==> r.Ok? == Recorded(old(k.entries), added).Ok?
  {
    hide JournalIn, JournalText, ManifestIn, Merge, StopsAtLast, Faultless, NoReaping;
    CallsCompose(k.schedule);
    var pending :- PendingCleanup(k);
    var merged :- MergeEntries(pending, added);
    assert Recorded(k.entries, added) == Ok(merged);
    r := WriteCleanup(k, merged);
  }

  // ----- deleting chunks -----

  method DeleteGeneration(k: CredentialStore, e: Entry) returns (r: Result<bool>)
    modifies k
    ensures StopsAtLast(k.schedule, old(k.log), k.log, r.IsInterrupted())
    ensures Reaped(old(k.entries), k.entries, [e])
    ensures r == Ok(true) ==> Gone(k.entries, e)
    ensures r.Err? ==> r.problem.Interrupted?
    ensures AllReap(old(k.log), k.log, e)
    ensures r.Ok? ==> (r.value <==> !Hit(k.schedule, old(k.log), k.log, e))
    ensures Faultless(k.schedule, old(k.log), k.log) ==> r == Ok(true)
  {
    hide StopsAtLast, Faultless, Hit, AllReap;
    CallsCompose(k.schedule);
    ghost var before := k.log;
    NoCalls(k.schedule, before, e);
    for index := 0 to e.count
      invariant StopsAtLast(k.schedule, before, k.log, false)
      invariant AllReap(before, k.log, e) && !Hit(k.schedule, before, k.log, e) && before <= k.log
      invariant Reaped(old(k.entries), k.entries, [e])
      invariant forall i: nat :: i < index ==> Chunk(e.generation, i) !in k.entries
    {
      var account := Chunk(e.generation, index);
      OneMoreCall(k.schedule, before, k.log, Call(Reading, account), e);
      var got := k.GetPassword(account);
      match got
      case Err(Interrupted) => return Err(Interrupted);
      case Err(_) => return Ok(false);
      case Ok(None) =>
      case Ok(Some(_)) =>
        assert Owned([e], account);
        OneMoreCall(k.schedule, before, k.log, Call(Deleting, account), e);
        var deleted := k.DeletePassword(account);
        match deleted
        case Err(Interrupted) => return Err(Interrupted);
        case Err(_) => return Ok(false);
        case Ok(_) =>
    }
    return Ok(true);
  }

  lemma OneEachPrefix(entries: seq<Entry>, n: nat)
    requires OneEach(entries) && n <= |entries|
    ensures OneEach(entries[..n])
  {
  }

  lemma LogGrows(schedule: nat -> Fault, before: Log, after: Log, interrupted: bool)
    requires StopsAtLast(schedule, before, after, interrupted)
    ensures before <= after
  {
  }

  method DeleteEntries(k: CredentialStore, entries: seq<Entry>) returns (r: Result<seq<Entry>>)
    modifies k
    ensures StopsAtLast(k.schedule, old(k.log), k.log, r.IsInterrupted())
    ensures Reaped(old(k.entries), k.entries, entries)
    ensures r.Err? ==> r.problem.Interrupted?
    ensures r.Ok? ==>
              && (forall e :: e in r.value ==> e in entries)
              && (forall e :: e in entries && e !in r.value ==> Gone(k.entries, e))
              && (Distinct(entries) ==> Distinct(r.value))
              && |r.value| <= |entries|
    ensures r.Ok? && OneEach(entries) ==> r.value == Failing(k.schedule, old(k.log), k.log, entries)
    ensures Faultless(k.schedule, old(k.log), k.log) ==> r == Ok([])
  {
    hide StopsAtLast, Faultless, Reaped, Gone, AllReap, AllReapSome, Hit, Failing, OneEach;
    CallsCompose(k.schedule);
    ghost var start := k.log;
    NoEntries(k.schedule, start);
    ReapedNothing(k.entries, entries);
    var failed: seq<Entry> := [];
    for i := 0 to |entries|
      invariant StopsAtLast(k.schedule, start, k.log, false) && start <= k.log
      invariant OneEach(entries) ==> AllReapSome(start, k.log, entries[..i])
      invariant OneEach(entries) ==> failed == Failing(k.schedule, start, k.log, entries[..i])
      invariant Reaped(old(k.entries), k.entries, entries)
      invariant forall e :: e in failed ==> e in entries[..i]
      invariant forall e :: e in entries[..i] && e !in failed ==> Gone(k.entries, e)
      invariant Distinct(entries) ==> Distinct(failed)
      invariant |failed| <= i
      invariant Faultless(k.schedule, old(k.log), k.log) ==> failed == []
    {
      ghost var before := k.entries;
      ghost var logged := k.log;
      var e := entries[i];
      var deleted := DeleteGeneration(k, e);
      ReapedTransitive(old(k.entries), before, k.entries, entries, [e], entries);
      GoneStays(before, k.entries, [e]);
      if deleted.Err? {
        return Err(deleted.problem);
      }
      assert entries[..i + 1] == entries[..i] + [e];
      assert Distinct(entries) ==> e !in entries[..i];
      LogGrows(k.schedule, logged, k.log, false);
      if OneEach(entries) {
        OneEachPrefix(entries, i + 1);
        OneMoreEntry(k.schedule, start, logged, k.log, entries[..i], e);
      }
      if !deleted.value {
        failed := failed + [e];
      }
    }
    assert entries[..|entries|] == entries;
    return Ok(failed);
  }

  // ----- retrying the cleanup -----

  /** Leaves the remaining entries in the journal, or removes a journal that lists nothing more. */
  method SaveRemaining(k: CredentialStore, remaining: seq<Entry>, entries: seq<Entry>) returns (r: Result<()>)
    requires WellFormed(remaining)
    modifies k
    ensures StopsAtLast(k.schedule, old(k.log), k.log, r.IsInterrupted())
    ensures k.entries == old(k.entries) || k.entries == WithJournal(old(k.entries), remaining)
    ensures r.Ok? ==> k.entries == WithJournal(old(k.entries), remaining) || (remaining == entries == [])
    ensures NoReaping(old(k.log), k.log)
    ensures Faultless(k.schedule, old(k.log), k.log) ==>
              r.Ok? || (remaining == [] && entries != [] && Journal !in old(k.entries))
  {
    hide WellFormed, JournalText;
    if remaining != [] {
      r := WriteCleanup(k, remaining);
    } else if entries != [] {
      r := k.DeletePassword(Journal);
    } else {
      r := Ok(());
    }
  }

  lemma MergeNothing(active: Option<Entry>)
    ensures Merge(ListOf(active), []) == Ok(ListOf(active))
  {
    assert Appended(ListOf(active), []) == ListOf(active);
  }

  predicate Conflicts(entries: seq<Entry>, active: Option<Entry>) {
    active.Some? && exists e :: e in entries && e.generation == active.value.generation && e.count != active.value.count
  }

  lemma {:induction false} AppendedDistinct(merged: seq<Entry>, group: seq<Entry>)
    requires Distinct(merged + group)
    ensures Appended(merged, group) == merged + group
    decreases |group|
  {
    if group == [] {
      assert merged + group == merged;
    } else {
      assert (merged + group)[|merged|] == group[0];
      forall j | 0 <= j < |merged| ensures merged[j] != group[0] {
        assert (merged + group)[j] == merged[j];
      }
      assert merged + group == (merged + [group[0]]) + group[1..];
      AppendedDistinct(merged + [group[0]], group[1..]);
    }
  }

  lemma StaleOneEach(entries: seq<Entry>, active: Option<Entry>)
    requires WellFormed(entries)
    ensures OneEach(Stale(entries, active))
  {
    var stale := Stale(entries, active);
    forall j, k | 0 <= j < k < |stale| ensures stale[j].generation != stale[k].generation {
      assert stale[j] in entries && stale[k] in entries;
    }
  }

  /** The active entry and failures of other generations merge, if there are not too many of them. */
  lemma MergeFailures(active: Option<Entry>, failing: seq<Entry>, entries: seq<Entry>)
    requires WellFormed(entries) && Distinct(failing) && AllValid(ListOf(active))
    requires forall e :: e in failing ==>
               e in entries && forall d :: d in ListOf(active) ==> e.generation != d.generation
    ensures Merge(ListOf(active), failing)
      == if |ListOf(active)| + |failing| <= MAX_CLEANUP_ENTRIES then Ok(ListOf(active) + failing) else Err(CannotSave)
    ensures |ListOf(active)| + |failing| <= MAX_CLEANUP_ENTRIES ==> WellFormed(ListOf(active) + failing)
  {
    var all := ListOf(active) + failing;
    assert active.Some? ==> active.value in ListOf(active);
    assert Distinct(all) by {
      forall j, k | 0 <= j < k < |all| ensures all[j] != all[k] {
        assert active.Some? && j == 0 ==> all[k] in failing && all[k] == failing[k - 1];
      }
    }
    AppendedDistinct(ListOf(active), failing);
  }

  /** What a cleanup of the store leaves journaled, when reaping has failed for these entries. */
  function Remaining(s: Store, failing: seq<Entry>): seq<Entry> {
    ListOf(Active(s)) + failing
  }

  lemma ConflictsAreInvalid(s: Store)
    requires Conflicts(Pending(s), Active(s))
    ensures !Valid(s)
  {
    hide JournalIn, ManifestIn, InvalidManifest, Valid;
    ConflictIsInvalid(s);
  }

  /** The entries of the journal that outlive a cleanup. */
  method ReapStale(k: CredentialStore, active: Option<Entry>, entries: seq<Entry>) returns (r: Result<seq<Entry>>)
    requires active == Active(k.entries) && entries == Pending(k.entries)
    modifies k
    ensures StopsAtLast(k.schedule, old(k.log), k.log, r.IsInterrupted())
    ensures Reaped(old(k.entries), k.entries, Stale(entries, active))
    ensures r.Ok? ==> WellFormed(r.value) && exists failed ::
                  && ReapedStale(old(k.entries), k.entries, failed)
                  && (forall e :: e in r.value <==> e in ListOf(active) || e in failed)
    ensures var failing := Failing(k.schedule, old(k.log), k.log, Stale(entries, active));
      && (r.Ok? ==> r.value == ListOf(active) + failing)
      && (!r.IsInterrupted() ==> (r.Ok? <==> |ListOf(active)| + |failing| <= MAX_CLEANUP_ENTRIES))
    ensures Faultless(k.schedule, old(k.log), k.log) ==> r == Ok(ListOf(active))
  {
    hide JournalIn, ManifestIn, Merge, Reaped, Gone, StopsAtLast, Faultless, Failing, WellFormed, OneEach, Stale,
      Distinct, AllValid, ReapedStale;
    CallsCompose(k.schedule);
    ghost var s := k.entries;
    ActiveIsValid(s);
    StaleOneEach(entries, active);
    StaleDistinct(entries, active);
    var failed :- DeleteEntries(k, Stale(entries, active));
    MergeNothing(active);
    MergeFailures(active, failed, entries);
    r := MergeEntries(ListOf(active), failed);
    StaleReaped(s, k.entries, failed);
  }

  lemma ActiveIsValid(s: Store)
    ensures AllValid(ListOf(Active(s)))
  {
    hide ManifestIn;
  }

  lemma StaleReaped(s: Store, t: Store, failed: seq<Entry>)
    requires var stale := Stale(Pending(s), Active(s));
      && Reaped(s, t, stale) && (forall e :: e in failed ==> e in stale)
      && (forall e :: e in stale && e !in failed ==> Gone(t, e))
    ensures ReapedStale(s, t, failed)
  {
    hide JournalIn, ManifestIn, Reaped, Gone, Stale;
  }

  lemma StaleDistinct(entries: seq<Entry>, active: Option<Entry>)
    requires WellFormed(entries)
    ensures Distinct(Stale(entries, active))
  {
  }

  /** The last call of a cleanup that has reaped what it could of the journal's stale entries. */
  method FinishCleanup(k: CredentialStore, remaining: seq<Entry>, entries: seq<Entry>, ghost s: Store,
                       ghost failed: seq<Entry>)
    returns (r: Result<()>)
    requires entries == Pending(s) && WellFormed(remaining) && ReapedStale(s, k.entries, failed)
    requires forall e :: e in remaining <==> e in ListOf(Active(s)) || e in failed
    modifies k
    ensures StopsAtLast(k.schedule, old(k.log), k.log, r.IsInterrupted())
    ensures NoReaping(old(k.log), k.log)
    ensures KeepsCache(s, k.entries)
    ensures Valid(s) ==> Valid(k.entries)
    ensures Valid(s) && r.Ok? ==>
              Pending(k.entries) == remaining && (EmbeddedIsPending(s) ==> Journaled(k.entries))
    ensures Settled(s) ==> Settled(k.entries)
    ensures Valid(s) && Faultless(k.schedule, old(k.log), k.log) ==> r.Ok?
  {
    hide JournalIn, ManifestIn, InvalidManifest, WellFormed, Valid, Journaled, Settled, KeepsCache, Reaped, ReapedStale,
      StopsAtLast, Faultless, NoReaping, WithJournal, EmbeddedIsPending, Active;
    ghost var t := k.entries;
    ReapedStaleFacts(s, t, failed);
    JournalOfReaped(s, t);
    r := SaveRemaining(k, remaining, entries);
    CleanupFinished(s, t, k.entries, failed, remaining);
  }

  /** The entries that a store tries to reap: all stale ones, once an older cleanup list has been migrated. */
  function ToReap(s: Store): seq<Entry> {
    match Recorded(s, Embedded(s))
    case Ok(all) => Stale(all, Active(s))
    case Err(_) => []
  }

  method RetryCleanup(k: CredentialStore, active: Option<Entry>) returns (r: Result<()>)
    requires active == Active(k.entries)
    modifies k
    ensures StopsAtLast(k.schedule, old(k.log), k.log, r.IsInterrupted())
    ensures KeepsCache(old(k.entries), k.entries)
    ensures !Readable(old(k.entries)) ==> k.entries == old(k.entries) && r.Err?
    ensures old(Valid(k.entries)) ==> Valid(k.entries)
    ensures old(Valid(k.entries)) && r.Ok? && EmbeddedIsPending(old(k.entries)) ==> Journaled(k.entries)
    ensures old(Settled(k.entries)) ==> Settled(k.entries)
    ensures Conflicts(Pending(old(k.entries)), active) ==> k.entries == old(k.entries) && r.Err?
    ensures var stale := Stale(Pending(old(k.entries)), active);
      var remaining := ListOf(active) + Failing(k.schedule, old(k.log), k.log, stale);
      old(Valid(k.entries)) && OnlyReapingFails(k.schedule, old(k.log), k.log, stale) ==>
        && (r.Ok? <==> |remaining| <= MAX_CLEANUP_ENTRIES)
        && (r.Ok? ==> Pending(k.entries) == remaining)
    ensures old(Valid(k.entries)) && Faultless(k.schedule, old(k.log), k.log) ==>
              r.Ok? && Pending(k.entries) == ListOf(active)
  {
    hide JournalIn, ManifestIn, InvalidManifest, WellFormed, Valid, Journaled, Settled, KeepsCache, Reaped, ReapedStale,
      StopsAtLast, Faultless, OnlyReapingFails, NoReaping, Failing, Stale, Conflicts, EmbeddedIsPending, Pending,
      Active, Readable;
    ghost var s, start := k.entries, k.log;
    ghost var stale := Stale(Pending(s), active);
    KeepsItself(s);
    ValidIsReadable(s);
    CallsCompose(k.schedule);
    OnlyReapingMeans(k.schedule, start, stale);
    var entries :- PendingCleanup(k);
    ghost var read := k.log;
    if Conflicts(entries, active) {
      ConflictsAreInvalid(s);
      return Err(InvalidState);
    }
    var reaped := ReapStale(k, active, entries);
    ghost var t, done := k.entries, k.log;
    LogGrows(k.schedule, read, done, reaped.IsInterrupted());
    FailingParts(k.schedule, start, read, done, stale);
    if reaped.Err? {
      ReapingKeepsBoth(s, t);
      return Err(reaped.problem);
    }
    var remaining := reaped.value;
    ghost var failed :| ReapedStale(s, t, failed) && forall e :: e in remaining <==> e in ListOf(active) || e in failed;
    r := FinishCleanup(k, remaining, entries, s, failed);
    LogGrows(k.schedule, done, k.log, r.IsInterrupted());
    FailingParts(k.schedule, start, done, k.log, stale);
    if OnlyReapingFails(k.schedule, start, k.log, stale) {
      OnlyReapingParts(k.schedule, start, done, k.log, stale);
    }
  }

  lemma JournalOfReaped(s: Store, t: Store)
    requires Reaped(s, t, Stale(Pending(s), Active(s)))
    ensures Journal in t <==> Journal in s
    ensures Valid(s) && Pending(s) == [] ==> Journal !in t
    ensures Pending(s) != [] ==> Journal in t
    ensures Pending(t) == Pending(s)
  {
    hide JournalIn, ManifestIn, InvalidManifest;
    ReapingKeepsValid(s, t);
  }

  lemma ReapingKeepsBoth(s: Store, t: Store)
    requires Reaped(s, t, Stale(Pending(s), Active(s)))
    ensures KeepsCache(s, t) && (Valid(s) ==> Valid(t)) && (Settled(s) ==> Settled(t))
  {
    hide JournalIn, ManifestIn, InvalidManifest, Valid, Journaled, Reaped;
    ReapingKeepsCache(s, t, Stale(Pending(s), Active(s)));
    ReapingKeepsValid(s, t);
    if Settled(s) {
      ReapingKeepsSettled(s, t);
    }
  }
}
