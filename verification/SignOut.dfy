/**
 Loading the cached sign-in state, which may store it again, and removing it.
 */
module SignOut {
  import opened Basics
  import opened Json
  import opened CacheFormat
  import opened CacheChunks
  import opened Keyring
  import opened CacheState
  import opened CleanupJournal
  import opened CredentialCache
  import opened IdTokens
  import ManifestKey
  import CacheFormatLaws

  // ----- loading -----

  /** What a load gives when every call works. */
  ghost function LoadOf(s: Store, serialized: string): Result<string> {
    match ManifestIn(serialized)
    case None => if InvalidManifest(serialized) then Err(InvalidState) else Ok(serialized)
    case Some(m) => if Complete(s, m.active) then Ok(Join(ChunksOf(s, m.active))) else Err(InvalidState)
  }

  /** Whatever is read in between are chunks of the generation that the manifest names. */
  ghost predicate OnlyReadsActive(serialized: string, before: Log, after: Log) {
    forall c :: |before| <= c < |after| ==>
      && ManifestIn(serialized).Some?
      && after[c].account.Chunk? && after[c].account.generation == ManifestIn(serialized).value.active.generation
  }

  method LoadUnlocked(k: CredentialStore, serialized: string) returns (r: Result<string>)
    modifies k`log
    ensures StopsAtLast(k.schedule, old(k.log), k.log, r.IsInterrupted())
    ensures OnlyReadsActive(serialized, old(k.log), k.log)
    ensures r.Ok? || Declined(r) ==> r == LoadOf(k.entries, serialized)
    ensures Faultless(k.schedule, old(k.log), k.log) ==> r == LoadOf(k.entries, serialized)
  {
    hide ManifestIn, InvalidManifest, Join, StopsAtLast, Faultless;
    CallsCompose(k.schedule);
    var manifest := ManifestIn(serialized);
    if manifest.None? {
      if InvalidManifest(serialized) {
        return Err(InvalidState);
      }
      return Ok(serialized);
    }
    var e := manifest.value.active;
    var found: seq<Option<string>> := [];
    for index := 0 to e.count
      invariant StopsAtLast(k.schedule, old(k.log), k.log, false)
      invariant |found| == index && OnlyReadsActive(serialized, old(k.log), k.log)
      invariant forall j: nat :: j < index ==>
                  found[j] == if Chunk(e.generation, j) in k.entries
                              then Some(k.entries[Chunk(e.generation, j)]) else None
    {
      var chunk :- k.GetPassword(Chunk(e.generation, index));
      found := found + [chunk];
    }
    if exists j :: 0 <= j < |found| && found[j].None? {
      ghost var j: nat :| j < |found| && found[j].None?;
      assert Chunk(e.generation, j) !in k.entries;
      return Err(InvalidState);
    }
    assert Complete(k.entries, e) by {
      forall i: nat | i < e.count ensures Chunk(e.generation, i) in k.entries {
        assert found[i].Some?;
      }
    }
    var chunks := seq(|found|, j requires 0 <= j < |found| => found[j].value);
    assert chunks == ChunksOf(k.entries, e);
    return Ok(Join(chunks));
  }

  /** A load follows exactly what the store says. */
  lemma LoadOfIsLoaded(s: Store)
    requires Primary in s
    ensures Loaded(s) != Nothing
    ensures LoadOf(s, s[Primary])
      == match Loaded(s)
         case Payload(text) => Ok(text)
         case _ => Err(InvalidState)
  {
    hide ManifestIn, InvalidManifest, Join;
  }

  lemma RefusedIsDamaged(s: Store)
    ensures Refused(s) ==> Loaded(s) == Damaged
  {
    hide ManifestIn, ManifestKey.Contains, Join;
  }

  method LoadCache(k: CredentialStore, sanitize: Sanitizer, draws: seq<string>) returns (r: Result<Option<string>>)
    requires ValidDraws(draws)
    modifies k
    ensures StopsAtLast(k.schedule, old(k.log), k.log, r.IsInterrupted())
    ensures Refused(old(k.entries)) ==> k.entries == old(k.entries) && r.Err?
    ensures r == Ok(None) ==>
              k.entries == old(k.entries) && (Loaded(k.entries) == Nothing || Loaded(k.entries) == Payload(""))
    ensures r.Ok? && r.value.Some? ==>
              var before := Loaded(old(k.entries));
              && before.Payload? && sanitize(before.text).Some? && r.value.value == sanitize(before.text).value.0
              && (Rewrites(sanitize, before.text) && Publishable(Rewritten(sanitize, before.text)) ==>
                    Loaded(k.entries) == Payload(Rewritten(sanitize, before.text)))
    ensures Faultless(k.schedule, old(k.log), k.log) ==>
              var before := Loaded(old(k.entries));
              && (before == Nothing ==> r == Ok(None))
              && (before.Damaged? ==> r == Err(InvalidState))
              && (before.Payload? && before.text != "" ==>
                    && (sanitize(before.text).None? ==> r == Err(InvalidState))
                    && (sanitize(before.text).Some? && !Rewrites(sanitize, before.text) ==>
                          r == Ok(Some(sanitize(before.text).value.0)))
                    && (Rewrites(sanitize, before.text) && old(Valid(k.entries))
                        && AllFresh(draws, Embedded(old(k.entries))) ==>
                          (r.Ok? <==> Storable(old(k.entries), [], Rewritten(sanitize, before.text), draws))))
    ensures var before := Loaded(old(k.entries));
      var stale := ToReap(old(k.entries)); var failing := Failing(k.schedule, old(k.log), k.log, stale);
      before.Payload? && before.text != "" && Rewrites(sanitize, before.text) && old(Valid(k.entries))
      && AllFresh(draws, Embedded(old(k.entries))) && OnlyReapingFails(k.schedule, old(k.log), k.log, stale) ==>
        (r.Ok? <==> Storable(old(k.entries), failing, Rewritten(sanitize, before.text), draws))
    ensures k.entries == old(k.entries)
            || (var before := Loaded(old(k.entries));
                && before.Payload? && Rewrites(sanitize, before.text)
                && var sanitized := Rewritten(sanitize, before.text);
                && (Publishable(sanitized) ==>
                      && (Loaded(k.entries) == before || Loaded(k.entries) == Payload(sanitized))
                      && (Embedded(k.entries) == Embedded(old(k.entries)) || Embedded(k.entries) == [])
                      && (old(Settled(k.entries)) ==> Settled(k.entries))
                      && (old(Valid(k.entries)) && AllFresh(draws, Embedded(old(k.entries))) ==> Valid(k.entries))))
  {
    hide ManifestIn, InvalidManifest, JournalIn, Valid, Settled, Storable, Publishable, StopsAtLast, Faultless,
      NoReaping, OnlyReapingFails, Failing, ToReap, NoneReaps, OnlyReadsActive, AllFresh, LoadOf, Loaded, Pending,
      Embedded;
    CallsCompose(k.schedule);
    ghost var s, start := k.entries, k.log;
    ghost var stale := ToReap(s);
    OnlyReapingMeans(k.schedule, start, stale);
    var serialized :- k.GetPassword(Primary);
    if serialized.None? || serialized.value == "" {
      EmptyPrimary(k.entries);
      return Ok(None);
    }
    LoadOfIsLoaded(s);
    RefusedIsDamaged(s);
    ghost var read := k.log;
    var loaded := LoadUnlocked(k, serialized.value);
    ghost var done := k.log;
    LogGrows(k.schedule, start, read, false);
    LogGrows(k.schedule, read, done, loaded.IsInterrupted());
    LoadSparesStale(s, start, read, done);
    if OnlyReapingFails(k.schedule, start, done, stale) {
      WorksUnlessReaping(k.schedule, start, done, done, stale);
    }
    if loaded.Err? {
      return Err(loaded.problem);
    }
    var stripped := sanitize(loaded.value);
    if stripped.None? {
      return Err(InvalidState);
    }
    var (sanitized, removed) := stripped.value;
    if removed {
      var stored := StoreCacheUnlocked(k, sanitized, draws);
      LogGrows(k.schedule, done, k.log, stored.IsInterrupted());
      ReapingAfter(k.schedule, start, done, k.log, stale);
      if OnlyReapingFails(k.schedule, start, k.log, stale) {
        WorksUnlessReaping(k.schedule, start, done, k.log, stale);
      }
      if stored.Err? {
        return Err(stored.problem);
      }
    }
    return Ok(Some(sanitized));
  }

  /** A load reads the primary and chunks of the active generation, and nothing stale. */
  lemma LoadSparesStale(s: Store, start: Log, read: Log, done: Log)
    requires Primary in s && read == start + [Call(Reading, Primary)] && read <= done
    requires OnlyReadsActive(s[Primary], read, done)
    ensures NoneReaps(start, done, ToReap(s))
  {
    hide ManifestIn, JournalIn, Pending, Embedded, ToReap;
    assert done[|start|] == read[|start|] == Call(Reading, Primary);
    StaleIsNotActive(s);
  }

  lemma StaleIsNotActive(s: Store)
    ensures forall e :: e in ToReap(s) && Active(s).Some? ==> e.generation != Active(s).value.generation
  {
    hide ManifestIn, JournalIn, Pending, Embedded, Recorded, Active;
  }

  lemma EmptyPrimary(s: Store)
    ensures Primary !in s ==> Loaded(s) == Nothing
    ensures Primary in s && s[Primary] == "" ==> Loaded(s) == Payload("") && !Refused(s)
  {
    hide JournalIn;
    if Primary in s && s[Primary] == "" {
      assert ManifestIn("") == None by {
        if ManifestIn("").Some? {
          CacheFormatLaws.ManifestClaimsKey("");
        }
      }
      assert !InvalidManifest("");
    }
  }

  /** Once in the primary of this store, the payload is what a load returns. */
  ghost predicate LoadsBack(s: Store, payload: string) {
    Loaded(s[Primary := payload]) == Payload(payload)
  }

  /**
   A payload stored directly is loaded back, whatever else the store holds, exactly when it
   does not claim the reserved root key.
   */
  lemma DirectPayloadLoadsBack(payload: string)
    ensures (forall s :: LoadsBack(s, payload)) <==> !ManifestKey.Contains(payload)
  {
    hide JournalIn, ManifestIn, ManifestKey.Contains;
    if ManifestKey.Contains(payload) {
      var s: Store := map[];
      var t := s[Primary := payload];
      if Active(t).Some? {
        var e := Active(t).value;
        assert Chunk(e.generation, 0) !in t;
        assert !Complete(t, e);
      } else {
        assert payload != "" by { EmptyClaimsNothing(); }
      }
      assert !LoadsBack(s, payload);
    } else {
      forall s ensures LoadsBack(s, payload) {
        DirectLoads(s, payload);
      }
    }
  }

  lemma EmptyClaimsNothing()
    ensures !ManifestKey.Contains("")
  {
    CacheFormatLaws.ShortTextClaimsNothing("");
  }

  // ----- removing -----

  lemma {:induction false} StaleWithoutActive(entries: seq<Entry>)
    ensures Stale(entries, None) == entries
  {
    hide Distinct;
    if entries != [] {
      StaleWithoutActive(entries[1..]);
    }
  }

  /** Deletes what the journal names, and then the journal; the failures stay journaled. */
  method RemoveClaimed(k: CredentialStore, entries: seq<Entry>) returns (r: Result<()>)
    requires Active(k.entries) == None && entries == Pending(k.entries)
    modifies k
    ensures StopsAtLast(k.schedule, old(k.log), k.log, r.IsInterrupted())
    ensures SamePrimary(old(k.entries), k.entries)
    ensures !Declined(r)
    ensures old(Valid(k.entries)) ==> Valid(k.entries)
    ensures old(Valid(k.entries)) && r.Ok? ==> Journal !in k.entries && forall a :: a in k.entries ==> !a.Chunk?
    ensures old(Valid(k.entries)) && Faultless(k.schedule, old(k.log), k.log) ==> r.Ok?
    ensures var failing := Failing(k.schedule, old(k.log), k.log, entries);
      old(Valid(k.entries)) && OnlyReapingFails(k.schedule, old(k.log), k.log, entries) ==>
        Pending(k.entries) == failing && r == if failing == [] then Ok(()) else Err(Unavailable)
  {
    hide JournalIn, ManifestIn, InvalidManifest, JournalText, Valid, Journaled, Reaped, Gone, StopsAtLast, Faultless,
      Failing, OnlyReapingFails, NoReaping, OneEach, Hit, Stale, ReapedStale;
    CallsCompose(k.schedule);
    ghost var s, start := k.entries, k.log;
    OnlyReapingMeans(k.schedule, start, entries);
    FaultlessMeans(k.schedule, start, entries);
    StaleWithoutActive(entries);
    StaleOneEach(entries, None);
    var deleted := DeleteEntries(k, entries);
    ghost var t, done := k.entries, k.log;
    LogGrows(k.schedule, start, done, deleted.IsInterrupted());
    ReapingKeepsBoth(s, t);
    JournalOfReaped(s, t);
    if deleted.Err? {
      return Err(deleted.problem);
    }
    var failed := deleted.value;
    StaleReaped(s, t, failed);
    ConsistentSubset(entries, failed);
    if failed != [] {
      r := WriteCleanup(k, failed);
      r := if r.Err? then r else Err(Unavailable);
    } else if entries != [] {
      r := k.DeletePassword(Journal);
    } else {
      r := Ok(());
    }
    CleanupFinished(s, t, k.entries, failed, failed);
    ReapingBetween(k.schedule, start, start, done, k.log, r.IsInterrupted(), entries);
    if Valid(s) && r.Ok? {
      NothingLeft(k.entries);
    }
  }

  lemma NothingLeft(s: Store)
    requires Valid(s) && Pending(s) == [] && Active(s) == None
    ensures Journal !in s && forall a :: a in s ==> !a.Chunk?
  {
    hide JournalIn, ManifestIn, InvalidManifest;
    forall a | a in s ensures !a.Chunk? {
      assert Owned(Claims(s), a);
      assert Claims(s) == [];
    }
  }

  /** The journal that names every claim owns every chunk. */
  lemma EverythingJournaled(s: Store, all: seq<Entry>)
    requires Valid(s) && WellFormed(all) && forall e :: e in all <==> e in Claims(s)
    requires all != []
    ensures var t := s[Journal := JournalText(all)];
      && Journaled(t) && KeepsCache(s, t) && Pending(t) == all
  {
    hide JournalIn, ManifestIn, InvalidManifest, JournalText, ConsistentCounts, WellFormed;
    ConsistentSubset(Claims(s), all + (ListOf(Active(s)) + Embedded(s)));
    JournalGrows(s, all);
    JournalWritten(s, all);
    NoOrphanMore(s, Claims(s), all);
    var t := s[Journal := JournalText(all)];
    assert NoOrphan(t, all) by {
      forall a | a in t ensures Owned(all, a) {
        assert a.Chunk? ==> a in s;
      }
    }
  }

  lemma NoPrimary(s: Store)
    requires Primary !in s
    ensures Active(s) == None && Loaded(s) == Nothing && Embedded(s) == []
  {
  }

  /** A logout can journal every claim: none is repeated by an older manifest, and all of them fit. */
  predicate Removable(s: Store) {
    && (forall e :: e in ListOf(Active(s)) ==> e !in Embedded(s))
    && |set e | e in Claims(s)| <= 16
  }

  lemma RemovableExactly(s: Store)
    requires Valid(s)
    ensures Removable(s) <==> Merge(Pending(s), ListOf(Active(s)) + Embedded(s)).Ok?
  {
    hide JournalIn, ManifestIn, InvalidManifest, Merge, ConsistentCounts, NoOrphan, Complete;
    MergeExactly(Pending(s), ListOf(Active(s)) + Embedded(s));
    DistinctListed(Active(s), Embedded(s));
  }

  lemma DistinctListed(active: Option<Entry>, entries: seq<Entry>)
    requires Distinct(entries)
    ensures Distinct(ListOf(active) + entries) <==> forall e :: e in ListOf(active) ==> e !in entries
  {
    if active.Some? {
      var all := ListOf(active) + entries;
      assert all[0] == active.value && active.value in ListOf(active);
      if active.value in entries {
        var j :| 0 <= j < |entries| && entries[j] == active.value;
        assert all[j + 1] == all[0];
      }
    }
  }

  /** Whatever is reached from the empty store can be removed. */
  lemma SettledIsRemovable(s: Store)
    requires Settled(s)
    ensures Removable(s)
  {
    hide JournalIn, ManifestIn, InvalidManifest, Merge, NoOrphan, Complete;
    assert Claims(s) == Pending(s) + (ListOf(Active(s)) + []);
    assert (set e | e in Claims(s)) == (set e | e in Pending(s));
    DistinctSize(Pending(s));
  }

  lemma PrimaryRemoved(s: Store)
    requires Journaled(s)
    ensures var t := s - {Primary}; Settled(t) && Pending(t) == Pending(s)
  {
    hide JournalIn, ManifestIn, InvalidManifest, ConsistentCounts, WellFormed;
    var t := s - {Primary};
    assert forall e :: e in Pending(s) ==> e in Claims(s);
    assert Claims(t) == Pending(s);
    ConsistentSubset(Claims(s), Claims(t));
    assert NoOrphan(t, Pending(s));
  }

  /** What a logout does before it removes the chunks: the claims are journaled, then the primary is removed. */
  method RemovePrimary(k: CredentialStore, present: bool, entries: seq<Entry>) returns (r: Result<()>)
    requires WellFormed(entries) && forall e :: e in entries <==> e in Claims(k.entries)
    requires present <==> Primary in k.entries
    modifies k
    ensures StopsAtLast(k.schedule, old(k.log), k.log, r.IsInterrupted())
    ensures NoReaping(old(k.log), k.log)
    ensures !Declined(r)
    ensures KeepsCache(old(k.entries), k.entries) || Primary !in k.entries
    ensures r.Ok? ==> Primary !in k.entries && Pending(k.entries) == entries
    ensures old(Valid(k.entries)) ==> Valid(k.entries) && (k.entries == old(k.entries) || Journaled(k.entries))
    ensures Faultless(k.schedule, old(k.log), k.log) ==> r.Ok?
  {
    hide JournalIn, ManifestIn, InvalidManifest, JournalText, Valid, Journaled, Settled, KeepsCache, WellFormed,
      StopsAtLast, Faultless, NoReaping, Claims;
    CallsCompose(k.schedule);
    ghost var s := k.entries;
    KeepsItself(s);
    if entries != [] {
      JournalWritten(s, entries);
      if Valid(s) {
        EverythingJournaled(s, entries);
        JournaledIsValid(s[Journal := JournalText(entries)]);
      }
      var _ :- WriteCleanup(k, entries);
    } else {
      NoClaims(s);
    }
    ghost var t := k.entries;
    PendingWithoutPrimary(t);
    if Journaled(t) {
      PrimaryRemoved(t);
      SettledFacts(t - {Primary});
    }
    if present {
      r := k.DeletePassword(Primary);
    } else {
      assert t - {Primary} == t;
      r := Ok(());
    }
  }

  /** The removal itself: primary first, then what the claims name, then the journal. */
  method RemoveAll(k: CredentialStore, present: bool, entries: seq<Entry>) returns (r: Result<()>)
    requires WellFormed(entries) && forall e :: e in entries <==> e in Claims(k.entries)
    requires present <==> Primary in k.entries
    modifies k
    ensures StopsAtLast(k.schedule, old(k.log), k.log, r.IsInterrupted())
    ensures !Declined(r)
    ensures KeepsCache(old(k.entries), k.entries) || Primary !in k.entries
    ensures old(Valid(k.entries)) ==> Valid(k.entries) && (k.entries == old(k.entries) || Journaled(k.entries))
    ensures old(Valid(k.entries)) && r.Ok? ==>
              Primary !in k.entries && Journal !in k.entries && forall a :: a in k.entries ==> !a.Chunk?
    ensures var failing := Failing(k.schedule, old(k.log), k.log, entries);
      old(Valid(k.entries)) && OnlyReapingFails(k.schedule, old(k.log), k.log, entries) ==>
        && Primary !in k.entries && Pending(k.entries) == failing
        && r == if failing == [] then Ok(()) else Err(Unavailable)
  {
    hide JournalIn, ManifestIn, InvalidManifest, Valid, Journaled, KeepsCache, WellFormed, StopsAtLast, Faultless,
      Claims, NoReaping, OnlyReapingFails, Failing, Pending;
    CallsCompose(k.schedule);
    ghost var start := k.log;
    OnlyReapingMeans(k.schedule, start, entries);
    var _ :- RemovePrimary(k, present, entries);
    ghost var done := k.log;
    LogGrows(k.schedule, start, done, false);
    NoPrimary(k.entries);
    r := RemoveClaimed(k, entries);
    LogGrows(k.schedule, done, k.log, r.IsInterrupted());
    ReapingBetween(k.schedule, start, done, k.log, k.log, false, entries);
    if Valid(k.entries) {
      NoPrimaryIsSettled(k.entries);
      SettledFacts(k.entries);
    }
  }

  /** What a logout tries to reap: everything that is claimed. */
  function ToRemove(s: Store): seq<Entry> {
    match Merge(Pending(s), ListOf(Active(s)) + Embedded(s))
    case Ok(all) => all
    case Err(_) => []
  }

  /**
   Removes the sign-in state. A logout that completes leaves no credential behind; one that does
   not leaves the old cache loadable, or no primary and a journal that names every chunk.
   */
  method Logout(k: CredentialStore) returns (r: Result<()>)
    modifies k
    ensures StopsAtLast(k.schedule, old(k.log), k.log, r.IsInterrupted())
    ensures Refused(old(k.entries)) || !Readable(old(k.entries)) ==> k.entries == old(k.entries) && r.Err?
    ensures Loaded(k.entries) == Loaded(old(k.entries)) || Primary !in k.entries
    ensures Declined(r) ==> k.entries == old(k.entries)
    ensures Embedded(k.entries) == Embedded(old(k.entries)) || Embedded(k.entries) == []
    ensures old(Valid(k.entries)) ==> Valid(k.entries)
    ensures old(Valid(k.entries)) && r.Ok? ==>
              Primary !in k.entries && Journal !in k.entries && forall a :: a in k.entries ==> !a.Chunk?
    ensures old(Settled(k.entries)) ==> Settled(k.entries)
    ensures old(Valid(k.entries)) && !Removable(old(k.entries)) ==> k.entries == old(k.entries) && r.Err?
    ensures old(Valid(k.entries)) && Removable(old(k.entries)) && Faultless(k.schedule, old(k.log), k.log) ==> r.Ok?
    ensures var claims := ToRemove(old(k.entries)); var failing := Failing(k.schedule, old(k.log), k.log, claims);
      old(Valid(k.entries)) && Removable(old(k.entries))
      && OnlyReapingFails(k.schedule, old(k.log), k.log, claims) ==>
        && Primary !in k.entries && Pending(k.entries) == failing
        && r == if failing == [] then Ok(()) else Err(Unavailable)
  {
    hide JournalIn, ManifestIn, InvalidManifest, Valid, Settled, Loaded, Merge, WellFormed, StopsAtLast, Faultless,
      Removable, Embedded, Pending, Claims, NoReaping, OnlyReapingFails, Failing;
    CallsCompose(k.schedule);
    ghost var s, start := k.entries, k.log;
    OnlyReapingMeans(k.schedule, start, ToRemove(s));
    FaultlessMeans(k.schedule, start, ToRemove(s));
    ValidIsReadable(s);
    if Settled(s) {
      SettledFacts(s);
    }
    if Valid(s) {
      RemovableExactly(s);
    }
    var serialized :- k.GetPassword(Primary);
    if serialized.Some? && InvalidManifest(serialized.value) {
      return Err(InvalidState);
    }
    var manifest := if serialized.Some? then ManifestIn(serialized.value) else None;
    var primaryEntries := if manifest.Some? then [manifest.value.active] + manifest.value.cleanup else [];
    PrimaryClaims(s);
    assert primaryEntries == ListOf(Active(s)) + Embedded(s);
    var pending :- PendingCleanup(k);
    var entries :- MergeEntries(pending, primaryEntries);
    MergedClaims(s, entries);
    if serialized.None? && entries == [] {
      NoClaims(s);
      if Valid(s) {
        NothingLeft(s);
      }
      NothingToFail(k.schedule, start, k.log);
      return Ok(());
    }
    ghost var read := k.log;
    LogGrows(k.schedule, start, read, false);
    r := RemoveAll(k, serialized.Some?, entries);
    AfterRemoval(s, k.entries);
    LogGrows(k.schedule, read, k.log, r.IsInterrupted());
    ReapingBetween(k.schedule, start, read, k.log, k.log, false, entries);
  }

  lemma NothingToFail(schedule: nat -> Fault, before: Log, after: Log)
    ensures Failing(schedule, before, after, []) == []
  {
  }

  lemma AfterRemoval(s: Store, t: Store)
    requires KeepsCache(s, t) || Primary !in t
    ensures Loaded(t) == Loaded(s) || Primary !in t
    ensures Embedded(t) == Embedded(s) || Embedded(t) == []
    ensures Settled(s) && (t == s || Journaled(t)) ==> Settled(t)
  {
    hide JournalIn, ManifestIn, InvalidManifest;
    if KeepsCache(s, t) {
      KeepsLoaded(s, t);
    } else {
      NoPrimary(t);
    }
  }

  lemma PrimaryClaims(s: Store)
    ensures ListOf(Active(s)) + Embedded(s)
      == match ManifestAt(s) case Some(m) => [m.active] + m.cleanup case None => []
  {
    hide ManifestIn;
  }

  lemma PendingWithoutPrimary(s: Store)
    ensures Pending(s - {Primary}) == Pending(s)
  {
    hide JournalIn;
  }

  lemma MergedClaims(s: Store, all: seq<Entry>)
    requires Merge(Pending(s), ListOf(Active(s)) + Embedded(s)) == Ok(all)
    ensures WellFormed(all) && forall e :: e in all <==> e in Claims(s)
  {
    hide JournalIn, ManifestIn, InvalidManifest;
  }

  lemma EmptyOrNot(entries: seq<Entry>)
    ensures entries == [] || exists e :: e in entries
  {
    if entries != [] {
      assert entries[0] in entries;
    }
  }

  lemma NoClaims(s: Store)
    requires forall e :: e !in Claims(s)
    ensures Pending(s) == [] && Active(s) == None && (Valid(s) ==> Journaled(s))
  {
    hide JournalIn, ManifestIn, InvalidManifest;
    EmptyOrNot(Claims(s));
    assert |Pending(s)| == 0 && |ListOf(Active(s))| == 0;
  }
}

