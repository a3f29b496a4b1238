/**
 Storing the cached sign-in state on Windows. A payload too large for one
 credential is written in chunks under a fresh generation and published by one write to the
 primary; the journal owns every generation from before its first chunk until after its last.
 */
module CredentialCache {
  import opened Basics
  import opened Json
  import opened CacheFormat
  import opened CacheChunks
  import opened Keyring
  import opened CacheState
  import opened CleanupJournal
  import ManifestKey
  import CacheFormatLaws

  const GENERATION_RETRIES := 8

  predicate Small(payload: string) {
    Utf16Bytes(payload) <= CHUNK_BYTES
  }

  /**
   A payload that is stored directly must not itself claim the reserved root key: the next
   reader would take it for a manifest.
   */
  predicate Publishable(payload: string) {
    Small(payload) ==> !ManifestKey.Contains(payload)
  }

  /** What the eight random draws of generation ids may be. */
  predicate ValidDraws(draws: seq<string>) {
    |draws| == GENERATION_RETRIES && forall d :: d in draws ==> ValidGeneration(d)
  }

  predicate AllFresh(draws: seq<string>, entries: seq<Entry>) {
    forall d :: d in draws ==> Fresh(d, entries)
  }

  method NewGeneration(forbidden: seq<Entry>, draws: seq<string>) returns (r: Result<string>)
    ensures r.Ok? ==> r.value in draws && Fresh(r.value, forbidden)
    ensures r.Err? <==> forall d :: d in draws ==> !Fresh(d, forbidden)
    ensures r.Err? ==> r.problem == CannotSave
  {
    for i := 0 to |draws|
      invariant forall d :: d in draws[..i] ==> !Fresh(d, forbidden)
    {
      if Fresh(draws[i], forbidden) {
        return Ok(draws[i]);
      }
      assert draws[..i + 1] == draws[..i] + [draws[i]];
    }
    assert draws[..|draws|] == draws;
    return Err(CannotSave);
  }

  predicate Declined<T>(r: Result<T>) {
    r.Err? && (r.problem.InvalidState? || r.problem.CannotSave?)
  }

  // ----- recording -----

  /** Recording more entries keeps the cache, and the invariant if no count is contradicted. */
  lemma RecordedKeeps(s: Store, added: seq<Entry>)
    requires AllValid(added) && Recorded(s, added).Ok?
    ensures var all := Recorded(s, added).value; var t := s[Journal := JournalText(all)];
      && KeepsCache(s, t) && Readable(t) && Pending(t) == all
      && Active(t) == Active(s) && Embedded(t) == Embedded(s)
      && (Valid(s) && all != [] && ConsistentCounts(all + (ListOf(Active(s)) + Embedded(s))) ==>
            Valid(t) && (Journaled(s) ==> Journaled(t)))
  {
    hide JournalIn, ManifestIn, InvalidManifest, JournalText, WellFormed, Merge, ConsistentCounts;
    var all := Recorded(s, added).value;
    var t := s[Journal := JournalText(all)];
    JournalWritten(s, all);
    if Valid(s) && all != [] && ConsistentCounts(all + (ListOf(Active(s)) + Embedded(s))) {
      JournalGrows(s, all);
      if Journaled(s) {
        NoOrphanMore(s, Pending(s), all);
        assert NoOrphan(t, Pending(t)) by {
          forall a | a in t ensures Owned(Pending(t), a) {
            assert a.Chunk? ==> a in s;
          }
        }
      }
    }
  }

  /** Recording claims that are already in force contradicts nothing. */
  lemma RecordClaims(s: Store, added: seq<Entry>)
    requires Valid(s) && forall e :: e in added ==> e in Claims(s)
    requires AllValid(added) && Recorded(s, added).Ok?
    ensures ConsistentCounts(Recorded(s, added).value + (ListOf(Active(s)) + Embedded(s)))
  {
    hide JournalIn, ManifestIn, InvalidManifest, WellFormed, Merge, ConsistentCounts, NoOrphan, Complete;
    ConsistentSubset(Claims(s), Recorded(s, added).value + (ListOf(Active(s)) + Embedded(s)));
  }

  /** Recording a fresh generation contradicts nothing. */
  lemma RecordFresh(s: Store, e: Entry)
    requires Journaled(s) && ValidEntry(e) && Fresh(e.generation, Claims(s))
    requires Recorded(s, ListOf(Active(s)) + [e]).Ok?
    ensures ConsistentCounts(Recorded(s, ListOf(Active(s)) + [e]).value + (ListOf(Active(s)) + Embedded(s)))
  {
    hide JournalIn, ManifestIn, InvalidManifest, WellFormed, Merge;
    var all := Recorded(s, ListOf(Active(s)) + [e]).value;
    assert forall d :: d in all ==> d in Claims(s) || d == e;
  }

  /**
   Recording a generation that only the primary's older cleanup list might also name: the store
   stays valid exactly when no entry of that list gives the generation another count. This is why
   a fresh draw must differ from the generations listed there.
   */
  lemma RecordNewValidExactly(s: Store, e: Entry)
    requires Journaled(s) && ValidEntry(e) && Fresh(e.generation, ListOf(Active(s)) + Pending(s))
    requires Recorded(s, ListOf(Active(s)) + [e]).Ok?
    ensures Valid(s[Journal := JournalText(Recorded(s, ListOf(Active(s)) + [e]).value)])
      <==> forall d :: d in Embedded(s) && d.generation == e.generation ==> d.count == e.count
  {
    hide JournalIn, ManifestIn, InvalidManifest, JournalText, WellFormed, Merge, NoOrphan, Complete;
    var added := ListOf(Active(s)) + [e];
    var all := Recorded(s, added).value;
    var t := s[Journal := JournalText(all)];
    RecordedKeeps(s, added);
    assert e in all && e in Claims(t);
    assert forall d :: d in all ==> d in Claims(s) || d == e;
    assert forall d :: d in Embedded(s) ==> d in Claims(t);
  }

  lemma AppendedPresent(merged: seq<Entry>, e: Entry)
    requires e in merged
    ensures Appended(merged, [e]) == merged
  {
    assert Appended(merged, [e]) == Appended(merged, []);
  }

  /** A journal that already names the active entry records it without change. */
  lemma RecordActive(s: Store)
    requires Journaled(s)
    ensures Recorded(s, ListOf(Active(s))) == Ok(Pending(s))
  {
    hide JournalIn, ManifestIn, InvalidManifest, NoOrphan;
    if Active(s).Some? {
      AppendedPresent(Pending(s), Active(s).value);
    }
  }

  lemma AppendedFresh(merged: seq<Entry>, active: Option<Entry>, e: Entry)
    requires e !in merged && forall d :: d in ListOf(active) ==> d in merged
    ensures Appended(merged, ListOf(active) + [e]) == merged + [e]
  {
    var added := ListOf(active) + [e];
    assert Appended(merged, [e]) == merged + [e] by {
      assert [e][1..] == [];
      assert Appended(merged + [e], []) == merged + [e];
    }
    if active.Some? {
      assert added[0] in ListOf(active);
      assert added[1..] == [e];
    } else {
      assert added == [e];
    }
  }

  /** A journal can record a fresh generation exactly when it has room for one more entry. */
  lemma RecordFreshFits(s: Store, e: Entry)
    requires Journaled(s) && ValidEntry(e) && Fresh(e.generation, Claims(s))
    ensures Recorded(s, ListOf(Active(s)) + [e]).Ok? <==> |Pending(s)| < MAX_CLEANUP_ENTRIES
  {
    hide JournalIn, ManifestIn, InvalidManifest, NoOrphan, Complete, Appended, ValidEntry;
    var p := Pending(s);
    var added := ListOf(Active(s)) + [e];
    assert forall d :: d in p ==> d in Claims(s);
    AppendedFresh(p, Active(s), e);
    AddedIsDistinct(Active(s), e);
    ConsistentSubset(Claims(s), p);
    FreshIsConsistent(p, e);
  }

  lemma AddedIsDistinct(active: Option<Entry>, e: Entry)
    requires Fresh(e.generation, ListOf(active))
    ensures Distinct(ListOf(active) + [e])
  {
    if active.Some? {
      assert active.value in ListOf(active);
    }
  }

  lemma FreshIsConsistent(entries: seq<Entry>, e: Entry)
    requires ConsistentCounts(entries) && Fresh(e.generation, entries)
    ensures ConsistentCounts(entries + [e])
  {
  }

  // ----- storing -----

  method WriteChunks(k: CredentialStore, e: Entry, chunks: seq<string>) returns (r: Result<()>)
    requires |chunks| == e.count && forall c :: c in chunks ==> Utf16Bytes(c) <= CHUNK_BYTES
    requires Fresh(e.generation, ListOf(Active(k.entries)))
    modifies k
    ensures StopsAtLast(k.schedule, old(k.log), k.log, r.IsInterrupted())
    ensures NoReaping(old(k.log), k.log)
    ensures KeepsCache(old(k.entries), k.entries)
    ensures Pending(k.entries) == old(Pending(k.entries))
    ensures old(Journaled(k.entries)) && e in old(Pending(k.entries)) ==> Journaled(k.entries)
    ensures forall a: Account :: !(a.Chunk? && a.generation == e.generation) ==> SameChunk(old(k.entries), k.entries, a)
    ensures r.Ok? ==> Complete(k.entries, e) && ChunksOf(k.entries, e) == chunks
    ensures r.Err? ==> !Declined(r)
    ensures Faultless(k.schedule, old(k.log), k.log) ==> r.Ok?
  {
    hide JournalIn, ManifestIn, InvalidManifest, Journaled, KeepsCache, StopsAtLast, Faultless, NoReaping;
    CallsCompose(k.schedule);
    ghost var s := k.entries;
    KeepsItself(s);
    for index := 0 to |chunks|
      invariant StopsAtLast(k.schedule, old(k.log), k.log, false) && NoReaping(old(k.log), k.log)
      invariant KeepsCache(s, k.entries) && Pending(k.entries) == Pending(s)
      invariant Journaled(s) && e in Pending(s) ==> Journaled(k.entries)
      invariant forall a: Account :: !(a.Chunk? && a.generation == e.generation) ==> SameChunk(s, k.entries, a)
      invariant forall j: nat :: j < index ==>
                  Chunk(e.generation, j) in k.entries && k.entries[Chunk(e.generation, j)] == chunks[j]
    {
      ghost var before := k.entries;
      KeepsLoaded(s, before);
      ChunkWritten(before, e, index, chunks[index]);
      KeepsTransitive(s, before, before[Chunk(e.generation, index) := chunks[index]]);
      var _ :- k.SetPassword(Chunk(e.generation, index), chunks[index]);
    }
    assert ChunksOf(k.entries, e) == chunks;
    return Ok(());
  }

  /** Replaces the primary by a payload that fits in it. */
  method StoreDirect(k: CredentialStore, serialized: string, active: Option<Entry>) returns (r: Result<()>)
    requires Small(serialized) && active == Active(k.entries)
    modifies k
    ensures StopsAtLast(k.schedule, old(k.log), k.log, r.IsInterrupted())
    ensures NoReaping(old(k.log), k.log)
    ensures Declined(r) ==> KeepsCache(old(k.entries), k.entries)
    ensures Publishable(serialized) ==>
              KeepsCache(old(k.entries), k.entries)
              || (Loaded(k.entries) == Payload(serialized) && Embedded(k.entries) == [])
    ensures Publishable(serialized) && r.Ok? ==> Loaded(k.entries) == Payload(serialized) && Embedded(k.entries) == []
    ensures Publishable(serialized) && old(Journaled(k.entries)) ==> Journaled(k.entries)
    ensures Publishable(serialized) && old(Journaled(k.entries)) && r.Ok? ==>
              Active(k.entries) == None && Pending(k.entries) == old(Pending(k.entries))
    ensures old(Journaled(k.entries)) && Faultless(k.schedule, old(k.log), k.log) ==> r.Ok?
  {
    hide JournalIn, ManifestIn, InvalidManifest, JournalText, ManifestKey.Contains, Journaled, KeepsCache, Recorded,
      StopsAtLast, Faultless, NoReaping;
    CallsCompose(k.schedule);
    ghost var s := k.entries;
    KeepsItself(s);
    if active.Some? {
      RecordActiveKeeps(s);
      var _ :- RecordCleanup(k, [active.value]);
    }
    ghost var t := k.entries;
    if Publishable(serialized) {
      DirectLoads(t, serialized);
      if Journaled(t) {
        DirectKeepsJournaled(t, serialized);
      }
    }
    r := k.SetPassword(Primary, serialized);
  }

  lemma RecordActiveKeeps(s: Store)
    requires Active(s).Some?
    ensures var added := [Active(s).value];
      && (Recorded(s, added).Ok? ==> KeepsCache(s, s[Journal := JournalText(Recorded(s, added).value)]))
      && (Journaled(s) ==>
            && Recorded(s, added) == Ok(Pending(s))
            && Journaled(s[Journal := JournalText(Pending(s))])
            && Pending(s[Journal := JournalText(Pending(s))]) == Pending(s))
  {
    hide JournalIn, ManifestIn, InvalidManifest, JournalText, WellFormed, Merge, ConsistentCounts, NoOrphan, Complete;
    var added := ListOf(Active(s));
    if Recorded(s, added).Ok? {
      RecordedKeeps(s, added);
    }
    if Journaled(s) {
      RecordActive(s);
      assert added[0] in added && added[0] in Pending(s);
      assert Pending(s) + (ListOf(Active(s)) + Embedded(s)) == Claims(s);
    }
  }

  lemma DirectKeepsJournaled(s: Store, text: string)
    requires Journaled(s) && !ManifestKey.Contains(text)
    ensures Journaled(s[Primary := text])
  {
    hide JournalIn, ManifestIn, InvalidManifest, ManifestKey.Contains, Journaled, Pending;
    DirectLoads(s, text);
    JournaledIsReadable(s);
    PrimaryReplaced(s, text);
  }

  lemma JournaledIsReadable(s: Store)
    requires Journaled(s)
    ensures Readable(s) && Valid(s)
  {
  }

  lemma PiecesFit(serialized: string)
    requires !Small(serialized)
    ensures Pieces(serialized) != [] && Join(Pieces(serialized)) == serialized
    ensures forall c :: c in Pieces(serialized) ==> Utf16Bytes(c) <= CHUNK_BYTES
  {
    hide Pieces, Join;
    JoinPieces(serialized);
    PieceSizes(serialized);
    assert Utf16Bytes("") == 0;
  }

  lemma ManifestFits(e: Entry)
    requires ValidEntry(e)
    ensures Utf16Bytes(ManifestText(e, [])) <= CREDENTIAL_MAX_BYTES
  {
    hide ManifestText, JournalText;
    assert WellFormed([]);
    CacheFormatLaws.DocumentsFit(e, []);
  }

  lemma RecordNewKeeps(s: Store, e: Entry)
    requires ValidEntry(e) && Fresh(e.generation, ListOf(Active(s)) + Pending(s))
    ensures var added := ListOf(Active(s)) + [e]; var r := Recorded(s, added);
      && (r.Ok? ==>
            var t := s[Journal := JournalText(r.value)];
            && KeepsCache(s, t) && Pending(t) == r.value && Active(t) == Active(s)
            && (Journaled(s) && Fresh(e.generation, Embedded(s)) ==> Journaled(t)))
      && (r.Ok? ==> forall d :: d in r.value <==> d in Pending(s) || d in added)
      && (Journaled(s) && Fresh(e.generation, Embedded(s)) ==> (r.Ok? <==> |Pending(s)| < MAX_CLEANUP_ENTRIES))
  {
    hide JournalIn, ManifestIn, InvalidManifest, JournalText, WellFormed, Merge, ConsistentCounts, NoOrphan, Complete;
    var added := ListOf(Active(s)) + [e];
    if Recorded(s, added).Ok? {
      RecordedKeeps(s, added);
    }
    if Journaled(s) && Fresh(e.generation, Embedded(s)) {
      assert Fresh(e.generation, Claims(s));
      RecordFreshFits(s, e);
      if Recorded(s, added).Ok? {
        RecordFresh(s, e);
        assert e in Recorded(s, added).value;
      }
    }
  }

  lemma FreshChunksOverwriteNothing(s: Store, generation: string)
    requires Journaled(s) && Fresh(generation, Pending(s))
    ensures forall a :: a in s && a.Chunk? ==> a.generation != generation
  {
    hide JournalIn, ManifestIn, InvalidManifest;
    forall i: nat ensures Chunk(generation, i) !in s {
      FreshGenerationIsEmpty(s, Pending(s), generation, i);
    }
    assert forall a :: a in s && a.Chunk? ==> a == Chunk(a.generation, a.index);
  }

  lemma PublishKeepsJournaled(s: Store, e: Entry)
    requires ValidEntry(e) && Complete(s, e)
    ensures Journaled(s) && e in Pending(s) ==> Journaled(s[Primary := ManifestText(e, [])])
  {
    hide JournalIn, ManifestIn, InvalidManifest, ManifestText, Journaled, Pending;
    if Journaled(s) && e in Pending(s) {
      ManifestLoads(s, e);
      JournaledIsReadable(s);
      PrimaryReplaced(s, ManifestText(e, []));
    }
  }

  /** Writes the chunks of a journaled generation and then, in one call, points the primary at them. */
  method Publish(k: CredentialStore, e: Entry, chunks: seq<string>) returns (r: Result<()>)
    requires ValidEntry(e) && |chunks| == e.count && forall c :: c in chunks ==> Utf16Bytes(c) <= CHUNK_BYTES
    requires Fresh(e.generation, ListOf(Active(k.entries)))
    modifies k
    ensures StopsAtLast(k.schedule, old(k.log), k.log, r.IsInterrupted())
    ensures NoReaping(old(k.log), k.log)
    ensures KeepsCache(old(k.entries), k.entries) || Loaded(k.entries) == Payload(Join(chunks))
    ensures r.Ok? ==>
              Loaded(k.entries) == Payload(Join(chunks)) && Active(k.entries) == Some(e) && Embedded(k.entries) == []
    ensures KeepsCache(old(k.entries), k.entries) || Embedded(k.entries) == []
    ensures Pending(k.entries) == old(Pending(k.entries))
    ensures old(Journaled(k.entries)) && e in old(Pending(k.entries)) ==> Journaled(k.entries)
    ensures forall a: Account :: a.Chunk? && a.generation != e.generation ==> SameChunk(old(k.entries), k.entries, a)
    ensures r.Err? ==> !Declined(r)
    ensures Faultless(k.schedule, old(k.log), k.log) ==> r.Ok?
  {
    hide JournalIn, ManifestIn, InvalidManifest, ManifestText, Journaled, KeepsCache, Complete, Join, StopsAtLast,
      Faultless, NoReaping;
    CallsCompose(k.schedule);
    var _ :- WriteChunks(k, e, chunks);
    ManifestLoads(k.entries, e);
    ManifestFits(e);
    PublishKeepsJournaled(k.entries, e);
    r := k.SetPassword(Primary, ManifestText(e, []));
  }

  /** Writes the chunks of a fresh generation and publishes it. */
  method StoreChunked(k: CredentialStore, serialized: string, active: Option<Entry>, pending: seq<Entry>,
                      draws: seq<string>)
    returns (r: Result<()>)
    requires !Small(serialized) && active == Active(k.entries) && pending == Pending(k.entries) && ValidDraws(draws)
    modifies k
    ensures StopsAtLast(k.schedule, old(k.log), k.log, r.IsInterrupted())
    ensures NoReaping(old(k.log), k.log)
    ensures Declined(r) ==> KeepsCache(old(k.entries), k.entries)
    ensures KeepsCache(old(k.entries), k.entries)
            || (Loaded(k.entries) == Payload(serialized) && Embedded(k.entries) == [])
    ensures r.Ok? ==> Loaded(k.entries) == Payload(serialized) && Embedded(k.entries) == []
    ensures old(Journaled(k.entries)) && AllFresh(draws, Embedded(old(k.entries))) ==> Journaled(k.entries)
    ensures old(Journaled(k.entries)) ==>
              forall a :: a in old(k.entries) && a.Chunk? ==> SameChunk(old(k.entries), k.entries, a)
    ensures r.Ok? ==> Active(k.entries).Some? && Active(k.entries).value.generation in draws
    ensures r.Ok? ==>
              forall e :: e in Pending(k.entries) <==> e in pending + (ListOf(active) + ListOf(Active(k.entries)))
    ensures old(Journaled(k.entries)) && AllFresh(draws, Embedded(old(k.entries)))
            && Faultless(k.schedule, old(k.log), k.log) ==>
              (r.Ok? <==> && |Pieces(serialized)| <= MAX_CHUNKS && |pending| < MAX_CLEANUP_ENTRIES
                          && exists d :: d in draws && Fresh(d, ListOf(active) + pending))
  {
    hide JournalIn, ManifestIn, InvalidManifest, JournalText, Journaled, KeepsCache, Recorded, Pieces, Join, Loaded,
      StopsAtLast, Faultless, NoReaping;
    CallsCompose(k.schedule);
    ghost var s := k.entries;
    KeepsItself(s);
    var chunks := SplitWindowsCache(serialized);
    if |chunks| > MAX_CHUNKS {
      return Err(CannotSave);
    }
    var generation :- NewGeneration(ListOf(active) + pending, draws);
    var e := Entry(generation, |chunks|);
    PiecesFit(serialized);
    RecordNewKeeps(s, e);
    if Journaled(s) {
      FreshChunksOverwriteNothing(s, generation);
    }
    var _ :- RecordCleanup(k, ListOf(active) + [e]);
    ghost var t := k.entries;
    r := Publish(k, e, chunks);
    if KeepsCache(t, k.entries) {
      KeepsTransitive(s, t, k.entries);
    }
  }

  // ----- the whole of a store -----

  /** Migrates the cleanup list of an older manifest, then retries every pending cleanup. */
  method Prepare(k: CredentialStore, active: Option<Entry>, embedded: seq<Entry>) returns (r: Result<()>)
    requires active == Active(k.entries) && embedded == Embedded(k.entries)
    modifies k
    ensures StopsAtLast(k.schedule, old(k.log), k.log, r.IsInterrupted())
    ensures KeepsCache(old(k.entries), k.entries)
    ensures !Readable(old(k.entries)) ==> k.entries == old(k.entries) && r.Err?
    ensures old(Valid(k.entries)) ==> Valid(k.entries) && (r.Ok? ==> Journaled(k.entries))
    ensures old(Settled(k.entries)) ==> Settled(k.entries)
    ensures Conflicts(Pending(old(k.entries)), active) ==> r.Err?
    ensures old(Valid(k.entries)) && Recorded(old(k.entries), embedded).Err? ==> k.entries == old(k.entries) && r.Err?
    ensures var stale := ToReap(old(k.entries));
      var remaining := Remaining(old(k.entries), Failing(k.schedule, old(k.log), k.log, stale));
      old(Valid(k.entries)) && OnlyReapingFails(k.schedule, old(k.log), k.log, stale) ==>
        && (r.Ok? <==> Recorded(old(k.entries), embedded).Ok? && |remaining| <= MAX_CLEANUP_ENTRIES)
        && (r.Ok? ==> Pending(k.entries) == remaining)
  {
    hide JournalIn, ManifestIn, InvalidManifest, JournalText, Valid, Journaled, KeepsCache, Recorded, StopsAtLast,
      Faultless, NoReaping, OnlyReapingFails, Failing, Stale, EmbeddedIsPending, Settled, Conflicts;
    CallsCompose(k.schedule);
    ghost var s, start := k.entries, k.log;
    ghost var stale := ToReap(s);
    OnlyReapingMeans(k.schedule, start, stale);
    KeepsItself(s);
    RecordEmbeddedKeeps(s);
    if Settled(s) {
      SettledFacts(s);
    }
    if embedded != [] {
      var _ :- RecordCleanup(k, embedded);
    }
    ghost var t, recorded := k.entries, k.log;
    assert Valid(s) ==> stale == Stale(Pending(t), active);
    ConflictsStay(s, t, active);
    r := RetryCleanup(k, active);
    KeepsTransitive(s, t, k.entries);
    LogGrows(k.schedule, start, recorded, false);
    LogGrows(k.schedule, recorded, k.log, r.IsInterrupted());
    FailingParts(k.schedule, start, recorded, k.log, stale);
    if OnlyReapingFails(k.schedule, start, k.log, stale) {
      OnlyReapingParts(k.schedule, start, recorded, k.log, stale);
    }
  }

  lemma ConflictsStay(s: Store, t: Store, active: Option<Entry>)
    requires forall e :: e in Pending(s) ==> e in Pending(t)
    ensures Conflicts(Pending(s), active) ==> Conflicts(Pending(t), active)
  {
    hide JournalIn;
  }

  lemma RecordEmbeddedKeeps(s: Store)
    ensures var added := Embedded(s); var r := Recorded(s, added);
      && (r.Ok? ==>
            var t := s[Journal := JournalText(r.value)];
            && KeepsCache(s, t) && Active(t) == Active(s) && Embedded(t) == added && EmbeddedIsPending(t) && Readable(t)
            && Pending(t) == r.value && (Valid(s) && added != [] ==> Valid(t)))
      && (!Readable(s) ==> r.Err?)
      && (Valid(s) && added == [] ==> r == Ok(Pending(s)) && EmbeddedIsPending(s))
  {
    hide JournalIn, ManifestIn, InvalidManifest, JournalText, ConsistentCounts, NoOrphan, Complete;
    var added := Embedded(s);
    if Valid(s) && added == [] {
      assert Appended(Pending(s), added) == Pending(s);
    }
    if Recorded(s, added).Ok? {
      hide Merge, WellFormed;
      RecordedKeeps(s, added);
      if Valid(s) && added != [] {
        assert added[0] in added;
        RecordClaims(s, added);
      }
    }
  }

  ghost predicate GenerationOfEntry(a: Account, e: Option<Entry>) {
    a.Chunk? && e.Some? && a.generation == e.value.generation
  }

  /** No generation but these two has chunks. */
  ghost predicate OnlyGenerationsOf(s: Store, before: Option<Entry>, after: Option<Entry>) {
    forall a :: a in s && a.Chunk? ==> GenerationOfEntry(a, before) || GenerationOfEntry(a, after)
  }

  lemma OnlyNamedGenerations(s: Store, active: Option<Entry>)
    requires Journaled(s)
    requires forall e :: e in Pending(s) ==> e in ListOf(active) + ListOf(Active(s))
    ensures OnlyGenerationsOf(s, active, Active(s))
  {
    hide JournalIn, ManifestIn, InvalidManifest;
    forall a | a in s && a.Chunk? ensures GenerationOfEntry(a, active) || GenerationOfEntry(a, Active(s)) {
      assert Owned(Pending(s), a);
    }
  }

  /** Replaces the cache of a store whose cleanup has been retried. */
  method Replace(k: CredentialStore, serialized: string, active: Option<Entry>, draws: seq<string>)
    returns (r: Result<()>)
    requires active == Active(k.entries) && ValidDraws(draws)
    modifies k
    ensures StopsAtLast(k.schedule, old(k.log), k.log, r.IsInterrupted())
    ensures NoReaping(old(k.log), k.log)
    ensures Declined(r) ==> KeepsCache(old(k.entries), k.entries)
    ensures Publishable(serialized) ==>
              KeepsCache(old(k.entries), k.entries)
              || (Loaded(k.entries) == Payload(serialized) && Embedded(k.entries) == [])
    ensures Publishable(serialized) && r.Ok? ==> Loaded(k.entries) == Payload(serialized) && Embedded(k.entries) == []
    ensures Publishable(serialized) && old(Journaled(k.entries)) && AllFresh(draws, Embedded(old(k.entries))) ==>
              Journaled(k.entries)
    ensures Publishable(serialized) && old(Journaled(k.entries)) && AllFresh(draws, Embedded(old(k.entries)))
            && r.Ok? ==>
              && (Active(k.entries).None? <==> Utf16Bytes(serialized) <= 2_400)
              && (forall e :: e in Pending(k.entries) <==>
                                e in Pending(old(k.entries)) || e in ListOf(Active(k.entries)))
              && (old(Pending(k.entries)) == ListOf(active) ==> OnlyGenerationsOf(k.entries, active, Active(k.entries)))
    ensures old(Journaled(k.entries)) && AllFresh(draws, Embedded(old(k.entries)))
            && Faultless(k.schedule, old(k.log), k.log) ==>
              (r.Ok? <==> Fits(serialized, Pending(old(k.entries)), draws))
  {
    hide JournalIn, ManifestIn, InvalidManifest, JournalText, Valid, Journaled, KeepsCache, Recorded, Pieces, Loaded,
      ManifestKey.Contains, StopsAtLast, Faultless, NoReaping, OnlyGenerationsOf;
    CallsCompose(k.schedule);
    ghost var t := k.entries;
    KeepsItself(t);
    JournaledIsValid(t);
    ValidIsReadable(t);
    var pending :- PendingCleanup(k);
    if Journaled(t) {
      ActiveIsJournaled(t);
    }
    if Small(serialized) {
      r := StoreDirect(k, serialized, active);
    } else {
      r := StoreChunked(k, serialized, active, pending, draws);
    }
    ghost var u := k.entries;
    if Journaled(u) && forall e :: e in Pending(u) ==> e in ListOf(active) + ListOf(Active(u)) {
      OnlyNamedGenerations(u, active);
    }
  }

  /**
   The payload can be represented; and unless it is stored directly, the journal has room for a new
   entry besides these, and some draw can be told from all of them.
   */
  predicate Fits(serialized: string, journaled: seq<Entry>, draws: seq<string>) {
    || Small(serialized)
    || (|Pieces(serialized)| <= 1_024 && |journaled| < 16
        && exists d :: d in draws && Fresh(d, journaled))
  }

  lemma ActiveIsJournaled(s: Store)
    requires Journaled(s)
    ensures forall e :: e in ListOf(Active(s)) ==> e in Pending(s)
    ensures forall d :: Fresh(d, ListOf(Active(s)) + Pending(s)) <==> Fresh(d, Pending(s))
  {
    hide JournalIn, ManifestIn, InvalidManifest, Valid;
  }

  /** The journal has room for the cleanup list of an older manifest, if there is one. */
  predicate Migratable(s: Store) {
    |set e | e in Pending(s) + Embedded(s)| <= 16
  }

  lemma MigratableExactly(s: Store)
    requires Valid(s)
    ensures Migratable(s) <==> Recorded(s, Embedded(s)).Ok?
  {
    hide JournalIn, ManifestIn, InvalidManifest, Merge, ConsistentCounts, NoOrphan, Complete;
    MergeExactly(Pending(s), Embedded(s));
    ConsistentSubset(Claims(s), Pending(s) + Embedded(s));
  }

  /**
   A store completes exactly within these limits when nothing fails but the reaping of old
   generations, which are then journaled again.
   */
  predicate Storable(s: Store, failing: seq<Entry>, serialized: string, draws: seq<string>) {
    && Migratable(s) && |Remaining(s, failing)| <= 16
    && Fits(serialized, Remaining(s, failing), draws)
  }

  /**
   Stores a payload. Wherever a call fails or the process stops, a load afterwards gives what it
   gave before or exactly the new payload, every chunk stays owned, and what is not understood is
   left untouched.
   */
  method StoreCacheUnlocked(k: CredentialStore, serialized: string, draws: seq<string>) returns (r: Result<()>)
    requires ValidDraws(draws)
    modifies k
    ensures StopsAtLast(k.schedule, old(k.log), k.log, r.IsInterrupted())
    ensures Refused(old(k.entries)) || !Readable(old(k.entries)) ==> k.entries == old(k.entries) && r.Err?
    ensures Publishable(serialized) ==>
              Loaded(k.entries) == Loaded(old(k.entries)) || Loaded(k.entries) == Payload(serialized)
    ensures Publishable(serialized) && r.Ok? ==> Loaded(k.entries) == Payload(serialized)
    ensures Declined(r) ==> Loaded(k.entries) == Loaded(old(k.entries))
    ensures Publishable(serialized) ==> Embedded(k.entries) == Embedded(old(k.entries)) || Embedded(k.entries) == []
    ensures old(Valid(k.entries)) && Publishable(serialized) && AllFresh(draws, Embedded(old(k.entries))) ==>
              && Valid(k.entries)
              && (r.Ok? ==> Settled(k.entries) && (Active(k.entries).None? <==> Utf16Bytes(serialized) <= 2_400))
    ensures old(Settled(k.entries)) && Publishable(serialized) ==> Settled(k.entries)
    ensures Conflicts(Pending(old(k.entries)), Active(old(k.entries))) ==>
              r.Err? && Loaded(k.entries) == Loaded(old(k.entries))
    ensures old(Valid(k.entries)) && !Migratable(old(k.entries)) ==> k.entries == old(k.entries) && r.Err?
    ensures old(Valid(k.entries)) && Publishable(serialized) && AllFresh(draws, Embedded(old(k.entries)))
            && r.Ok? && Faultless(k.schedule, old(k.log), k.log) ==>
              OnlyGenerationsOf(k.entries, Active(old(k.entries)), Active(k.entries))
    ensures old(Valid(k.entries)) && AllFresh(draws, Embedded(old(k.entries)))
            && Faultless(k.schedule, old(k.log), k.log) ==>
              (r.Ok? <==> Storable(old(k.entries), [], serialized, draws))
    ensures var stale := ToReap(old(k.entries)); var failing := Failing(k.schedule, old(k.log), k.log, stale);
      old(Valid(k.entries)) && AllFresh(draws, Embedded(old(k.entries)))
      && OnlyReapingFails(k.schedule, old(k.log), k.log, stale) ==>
        && (r.Ok? <==> Storable(old(k.entries), failing, serialized, draws))
        && (r.Ok? && Publishable(serialized) ==>
              forall e :: e in Pending(k.entries)
                <==> e in Remaining(old(k.entries), failing) || e in ListOf(Active(k.entries)))
  {
    hide JournalIn, ManifestIn, InvalidManifest, JournalText, Valid, Journaled, KeepsCache, Recorded, Loaded,
      ManifestKey.Contains, StopsAtLast, Faultless, OnlyGenerationsOf, Fits, Pending, Migratable, ToReap, Failing,
      OnlyReapingFails, NoReaping, Settled, Publishable, AllFresh, Utf16Bytes, Conflicts;
    CallsCompose(k.schedule);
    ghost var s, start := k.entries, k.log;
    ghost var stale := ToReap(s);
    OnlyReapingMeans(k.schedule, start, stale);
    FaultlessMeans(k.schedule, start, stale);
    ValidIsReadable(s);
    SettledExactly(s);
    JournaledIsValid(s);
    FreshForNone(draws);
    if Valid(s) {
      MigratableExactly(s);
    }
    var previous :- k.GetPassword(Primary);
    if previous.Some? && InvalidManifest(previous.value) {
      return Err(InvalidState);
    }
    var manifest := if previous.Some? then ManifestIn(previous.value) else None;
    var active := if manifest.Some? then Some(manifest.value.active) else None;
    var embedded := if manifest.Some? then manifest.value.cleanup else [];
    assert !Refused(s) && active == Active(s) && embedded == Embedded(s);
    ghost var read := k.log;
    var prepared := Prepare(k, active, embedded);
    ghost var t, done := k.entries, k.log;
    KeepsLoaded(s, t);
    LogGrows(k.schedule, start, read, false);
    LogGrows(k.schedule, read, done, prepared.IsInterrupted());
    if prepared.Err? {
      ReapingBetween(k.schedule, start, read, done, done, false, stale);
      return prepared;
    }
    r := Replace(k, serialized, active, draws);
    ghost var u := k.entries;
    if KeepsCache(t, u) {
      KeepsLoaded(t, u);
    }
    JournaledIsValid(u);
    SettledExactly(u);
    ReapingBetween(k.schedule, start, read, done, k.log, r.IsInterrupted(), stale);
  }

  lemma FreshForNone(draws: seq<string>)
    ensures AllFresh(draws, [])
  {
  }

  lemma SettledExactly(s: Store)
    ensures Settled(s) <==> Journaled(s) && Embedded(s) == []
  {
    hide Journaled;
  }

  lemma JournaledIsValid(s: Store)
    ensures Journaled(s) ==> Valid(s)
  {
  }
}
