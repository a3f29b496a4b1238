/**
 What a credential store says about the cached sign-in state: what a load would return, which
 entries claim chunks, and the invariant that every operation keeps at every call.
 */
module CacheState {
  import opened Basics
  import opened Json
  import opened CacheFormat
  import opened CacheChunks
  import opened Keyring
  import ManifestKey
  import CacheFormatLaws

  // ----- reading a store -----

  /** The journal can be read: it is absent, or it is exactly a journal. */
  predicate Readable(s: Store) {
    Journal in s ==> JournalIn(s[Journal]).Some?
  }

  function Pending(s: Store): (entries: seq<Entry>)
    ensures WellFormed(entries)
  {
    if Journal in s && JournalIn(s[Journal]).Some? then JournalIn(s[Journal]).value else []
  }

  /** The primary credential claims the manifest format without being a manifest. */
  predicate Refused(s: Store) {
    Primary in s && InvalidManifest(s[Primary])
  }

  function ManifestAt(s: Store): (m: Option<Manifest>)
    ensures m.Some? ==> Sound(m.value)
  {
    if Primary in s then ManifestIn(s[Primary]) else None
  }

  function Active(s: Store): (active: Option<Entry>)
    ensures active.Some? ==> ValidEntry(active.value)
  {
    match ManifestAt(s)
    case Some(m) => Some(m.active)
    case None => None
  }

  /** The cleanup list of a manifest in the older format. */
  function Embedded(s: Store): (entries: seq<Entry>)
    ensures WellFormed(entries)
  {
    match ManifestAt(s)
    case Some(m) => m.cleanup
    case None => []
  }

  function ListOf(active: Option<Entry>): seq<Entry> {
    match active
    case Some(e) => [e]
    case None => []
  }

  /** Every entry that may still have chunks. */
  function Claims(s: Store): seq<Entry> {
    Pending(s) + (ListOf(Active(s)) + Embedded(s))
  }

  ghost predicate Complete(s: Store, e: Entry) {
    forall i: nat :: i < e.count ==> Chunk(e.generation, i) in s
  }

  /** The chunks of an entry, in order. */
  ghost function ChunksOf(s: Store, e: Entry): (chunks: seq<string>)
    requires Complete(s, e)
  {
    seq(e.count, i requires 0 <= i < e.count => s[Chunk(e.generation, i)])
  }

  /** What loading the store gives. */
  datatype Contents = Nothing | Payload(text: string) | Damaged

  ghost function Loaded(s: Store): Contents {
    if Primary !in s then Nothing
    else
      match Active(s)
      case Some(e) => if Complete(s, e) then Payload(Join(ChunksOf(s, e))) else Damaged
      case None => if Refused(s) then Damaged else Payload(s[Primary])
  }

  // ----- ownership -----

  ghost predicate Owned(entries: seq<Entry>, a: Account) {
    a.Chunk? ==> exists e :: e in entries && e.generation == a.generation && a.index < e.count
  }

  /** Every chunk in the store belongs to a generation and index range that some entry names. */
  ghost predicate NoOrphan(s: Store, entries: seq<Entry>) {
    forall a :: a in s ==> Owned(entries, a)
  }

  /** The invariant of every reachable store. */
  ghost predicate Valid(s: Store) {
    && Readable(s)
    && (Journal in s ==> Pending(s) != [])
    && !Refused(s)
    && ConsistentCounts(Claims(s))
    && NoOrphan(s, Claims(s))
    && (Active(s).Some? ==> Complete(s, Active(s).value))
  }

  /** Nothing but the journal is needed to find every chunk. */
  ghost predicate Journaled(s: Store) {
    Valid(s) && NoOrphan(s, Pending(s)) && forall e :: e in ListOf(Active(s)) ==> e in Pending(s)
  }

  /** What every store satisfies that is reached from the empty one. */
  ghost predicate Settled(s: Store) {
    Journaled(s) && Embedded(s) == []
  }

  lemma ValidIsReadable(s: Store)
    ensures Valid(s) ==> Readable(s) && !Refused(s)
  {
  }

  lemma OwnedMore(small: seq<Entry>, large: seq<Entry>, a: Account)
    requires Owned(small, a) && forall e :: e in small ==> e in large
    ensures Owned(large, a)
  {
  }

  lemma NoOrphanMore(s: Store, small: seq<Entry>, large: seq<Entry>)
    requires NoOrphan(s, small) && forall e :: e in small ==> e in large
    ensures NoOrphan(s, large)
  {
    forall a | a in s ensures Owned(large, a) {
      OwnedMore(small, large, a);
    }
  }

  lemma ConsistentSubset(large: seq<Entry>, small: seq<Entry>)
    requires ConsistentCounts(large) && forall e :: e in small ==> e in large
    ensures ConsistentCounts(small)
  {
  }

  // ----- changes that keep the cache -----

  ghost predicate SamePrimary(s: Store, t: Store) {
    (Primary in s <==> Primary in t) && (Primary in s ==> s[Primary] == t[Primary])
  }

  ghost predicate SameChunk(s: Store, t: Store, a: Account) {
    (a in s <==> a in t) && (a in s ==> s[a] == t[a])
  }

  /** The primary and the chunks of the active generation are as they were. */
  ghost predicate KeepsCache(s: Store, t: Store) {
    && SamePrimary(s, t)
    && forall e, i: nat :: e in ListOf(Active(s)) ==> SameChunk(s, t, Chunk(e.generation, i))
  }

  lemma KeepsLoaded(s: Store, t: Store)
    requires KeepsCache(s, t)
    ensures Loaded(t) == Loaded(s) && Active(t) == Active(s) && Embedded(t) == Embedded(s)
    ensures Refused(t) == Refused(s)
    ensures Active(s).Some? ==> Complete(s, Active(s).value) == Complete(t, Active(s).value)
  {
    hide ManifestIn, InvalidManifest, JournalIn, Join;
    if Active(s).Some? {
      var e := Active(s).value;
      assert e in ListOf(Active(s));
      assert forall i: nat :: SameChunk(s, t, Chunk(e.generation, i));
      if Complete(s, e) {
        assert Complete(t, e);
        assert ChunksOf(s, e) == ChunksOf(t, e);
      } else {
        var i: nat :| i < e.count && Chunk(e.generation, i) !in s;
        assert SameChunk(s, t, Chunk(e.generation, i));
      }
    }
  }

  lemma KeepsTransitive(s: Store, t: Store, u: Store)
    requires KeepsCache(s, t) && KeepsCache(t, u)
    ensures KeepsCache(s, u)
  {
    hide ManifestIn, InvalidManifest, JournalIn;
    forall e, i: nat | e in ListOf(Active(s)) ensures SameChunk(s, u, Chunk(e.generation, i)) {
      assert e in ListOf(Active(t));
      assert SameChunk(s, t, Chunk(e.generation, i)) && SameChunk(t, u, Chunk(e.generation, i));
    }
  }

  lemma KeepsItself(s: Store)
    ensures KeepsCache(s, s)
  {
  }

  /** Writing a journal keeps the cache and every chunk, and the journal reads back. */
  lemma JournalWritten(s: Store, entries: seq<Entry>)
    requires WellFormed(entries)
    ensures var t := s[Journal := JournalText(entries)];
      && Readable(t) && Pending(t) == entries && KeepsCache(s, t)
      && Active(t) == Active(s) && Embedded(t) == Embedded(s) && Refused(t) == Refused(s)
  {
    hide ManifestIn, InvalidManifest, JournalIn, JournalText, WellFormed;
    CacheFormatLaws.JournalRoundTrip(entries);
    KeepsLoaded(s, s[Journal := JournalText(entries)]);
  }

  /** A journal that forgets nothing, and agrees with every claim, keeps the invariant. */
  lemma JournalGrows(s: Store, entries: seq<Entry>)
    requires Valid(s) && WellFormed(entries) && entries != []
    requires forall e :: e in Pending(s) ==> e in entries
    requires ConsistentCounts(entries + (ListOf(Active(s)) + Embedded(s)))
    ensures Valid(s[Journal := JournalText(entries)])
  {
    hide ManifestIn, InvalidManifest, JournalIn, JournalText, WellFormed, ConsistentCounts;
    var t := s[Journal := JournalText(entries)];
    JournalWritten(s, entries);
    KeepsLoaded(s, t);
    NoOrphanMore(s, Claims(s), Claims(t));
    assert NoOrphan(t, Claims(t)) by {
      forall a | a in t ensures Owned(Claims(t), a) {
        assert a.Chunk? ==> a in s;
      }
    }
  }

  // ----- reaping -----

  /** Nothing was added or changed, and only chunks that the entries name were removed. */
  ghost predicate Reaped(s: Store, t: Store, entries: seq<Entry>) {
    && (forall a :: a in t ==> a in s && t[a] == s[a])
    && (forall a :: a in s && a !in t ==> a.Chunk? && Owned(entries, a))
  }

  /** No chunk that the entry names is left. */
  ghost predicate Gone(s: Store, e: Entry) {
    forall i: nat :: i < e.count ==> Chunk(e.generation, i) !in s
  }

  lemma ReapedTransitive(s: Store, t: Store, u: Store, first: seq<Entry>, second: seq<Entry>, all: seq<Entry>)
    requires Reaped(s, t, first) && Reaped(t, u, second)
    requires forall e :: e in first || e in second ==> e in all
    ensures Reaped(s, u, all)
  {
    forall a | a in s && a !in u ensures a.Chunk? && Owned(all, a) {
      if a in t {
        OwnedMore(second, all, a);
      } else {
        OwnedMore(first, all, a);
      }
    }
  }

  lemma ReapedNothing(s: Store, entries: seq<Entry>)
    ensures Reaped(s, s, entries)
  {
  }

  lemma GoneStays(s: Store, t: Store, entries: seq<Entry>)
    requires Reaped(s, t, entries)
    ensures forall e :: Gone(s, e) ==> Gone(t, e)
  {
  }

  /** The journal entries of other generations than the active one. */
  function Stale(entries: seq<Entry>, active: Option<Entry>): (stale: seq<Entry>)
    ensures forall e :: e in stale <==> e in entries && (active.None? || e.generation != active.value.generation)
    ensures Distinct(entries) ==> Distinct(stale)
    ensures |stale| <= |entries|
  {
    if entries == [] then []
    else
      var rest := Stale(entries[1..], active);
      if active.None? || entries[0].generation != active.value.generation then [entries[0]] + rest else rest
  }

  /** Reaping stale generations keeps the active one. */
  lemma ReapingKeepsCache(s: Store, t: Store, stale: seq<Entry>)
    requires Reaped(s, t, stale)
    requires forall e, d :: e in stale && d in ListOf(Active(s)) ==> e.generation != d.generation
    ensures KeepsCache(s, t) && SameChunk(s, t, Journal)
  {
    hide ManifestIn, InvalidManifest, JournalIn;
    assert Primary in s ==> Primary in t;
    assert Journal in s ==> Journal in t;
    forall d, i: nat | d in ListOf(Active(s)) ensures SameChunk(s, t, Chunk(d.generation, i)) {
      assert !Owned(stale, Chunk(d.generation, i));
    }
  }

  /** What a reaping of the stale journal entries has done to the store. */
  ghost predicate ReapedStale(s: Store, t: Store, failed: seq<Entry>) {
    var stale := Stale(Pending(s), Active(s));
    && Reaped(s, t, stale)
    && (forall e :: e in failed ==> e in stale)
    && (forall e :: e in stale && e !in failed ==> Gone(t, e))
  }

  /** A journal entry with a chunk that survives the reaping goes on to be named. */
  lemma SurvivorNamed(s: Store, t: Store, failed: seq<Entry>, remaining: seq<Entry>, e: Entry, i: nat)
    requires Valid(s) && ReapedStale(s, t, failed)
    requires forall e :: e in remaining <==> e in ListOf(Active(s)) || e in failed
    requires e in Pending(s) && i < e.count && Chunk(e.generation, i) in t
    ensures e in remaining
  {
    hide ManifestIn, InvalidManifest, JournalIn;
    assert e in Claims(s);
    assert !Gone(t, e);
    assert e in Stale(Pending(s), Active(s)) ==> e in failed;
    assert Active(s).Some? ==> Active(s).value in ListOf(Active(s)) && Active(s).value in Claims(s);
  }

  lemma SurvivorOwned(s: Store, t: Store, failed: seq<Entry>, remaining: seq<Entry>, a: Account)
    requires Valid(s) && ReapedStale(s, t, failed) && a in t && a.Chunk?
    requires forall e :: e in remaining <==> e in ListOf(Active(s)) || e in failed
    ensures Owned(remaining + Embedded(s), a)
    ensures EmbeddedIsPending(s) ==> Owned(remaining, a)
  {
    hide ManifestIn, InvalidManifest, JournalIn;
    assert Owned(Claims(s), a);
    var e :| e in Claims(s) && e.generation == a.generation && a.index < e.count;
    if e in Pending(s) {
      SurvivorNamed(s, t, failed, remaining, e, a.index);
    }
    assert e in remaining || e in Embedded(s);
    assert e in remaining + Embedded(s);
  }

  /** The store with the remaining entries in its journal, or without a journal when there are none. */
  function WithJournal(s: Store, remaining: seq<Entry>): Store {
    if remaining != [] then s[Journal := JournalText(remaining)] else s - {Journal}
  }

  lemma JournalReplaced(s: Store, remaining: seq<Entry>)
    requires WellFormed(remaining)
    ensures var t := WithJournal(s, remaining);
      && KeepsCache(s, t) && Readable(t) && Pending(t) == remaining && (Journal in t ==> remaining != [])
      && forall a :: a in t && a.Chunk? ==> a in s
  {
    hide ManifestIn, InvalidManifest, JournalIn, JournalText, WellFormed;
    if remaining != [] {
      JournalWritten(s, remaining);
    }
  }

  lemma SurvivorsOwned(s: Store, t: Store, u: Store, failed: seq<Entry>, remaining: seq<Entry>)
    requires Valid(s) && ReapedStale(s, t, failed)
    requires forall e :: e in remaining <==> e in ListOf(Active(s)) || e in failed
    requires forall a :: a in u && a.Chunk? ==> a in t
    ensures NoOrphan(u, remaining + Embedded(s))
    ensures EmbeddedIsPending(s) ==> NoOrphan(u, remaining)
  {
    hide ManifestIn, InvalidManifest, JournalIn, Valid, ReapedStale;
    forall a | a in u
      ensures Owned(remaining + Embedded(s), a)
      ensures EmbeddedIsPending(s) ==> Owned(remaining, a)
    {
      if a.Chunk? {
        SurvivorOwned(s, t, failed, remaining, a);
      }
    }
  }

  /**
   After the stale generations were reaped, the journal that names the active generation and
   the failures keeps the invariant, and so does removing the journal when it would be empty.
   */
  lemma CleanupKeepsValid(s: Store, t: Store, u: Store, failed: seq<Entry>, remaining: seq<Entry>)
    requires Valid(s) && ReapedStale(s, t, failed) && WellFormed(remaining)
    requires forall e :: e in remaining <==> e in ListOf(Active(s)) || e in failed
    requires u == WithJournal(t, remaining)
    ensures Valid(u) && KeepsCache(s, u) && Pending(u) == remaining
    ensures EmbeddedIsPending(s) ==> Journaled(u)
  {
    hide ManifestIn, InvalidManifest, JournalIn, JournalText, WellFormed, ConsistentCounts, WithJournal, NoOrphan,
      KeepsCache, Complete;
    ReapingKeepsCache(s, t, Stale(Pending(s), Active(s)));
    JournalReplaced(t, remaining);
    KeepsTransitive(s, t, u);
    KeepsLoaded(s, u);
    assert forall e :: e in Claims(u) ==> e in Claims(s);
    ConsistentSubset(Claims(s), Claims(u));
    SurvivorsOwned(s, t, u, failed, remaining);
    NoOrphanMore(u, remaining + Embedded(s), Claims(u));
  }

  /** Two counts for the active generation cannot both be claimed. */
  lemma ConflictIsInvalid(s: Store)
    requires Active(s).Some?
    requires exists e :: e in Pending(s) && e.generation == Active(s).value.generation
                         && e.count != Active(s).value.count
    ensures !Valid(s)
  {
    hide ManifestIn, InvalidManifest, JournalIn;
    var e :| e in Pending(s) && e.generation == Active(s).value.generation && e.count != Active(s).value.count;
    assert e in Claims(s) && Active(s).value in ListOf(Active(s)) && Active(s).value in Claims(s);
  }

  lemma ReapingKeepsValid(s: Store, t: Store)
    requires Reaped(s, t, Stale(Pending(s), Active(s)))
    ensures Pending(t) == Pending(s)
    ensures Valid(s) ==> Valid(t)
  {
    hide ManifestIn, InvalidManifest, JournalIn, ConsistentCounts;
    ReapingKeepsCache(s, t, Stale(Pending(s), Active(s)));
    KeepsLoaded(s, t);
    assert forall a :: a in t ==> a in s;
  }

  lemma ValidJournal(s: Store)
    requires Valid(s) && Pending(s) == []
    ensures Journal !in s && s - {Journal} == s
  {
  }

  /** However the last call of a cleanup ends, the cache is kept and the store stays valid. */
  lemma CleanupFinished(s: Store, t: Store, u: Store, failed: seq<Entry>, remaining: seq<Entry>)
    requires ReapedStale(s, t, failed) && WellFormed(remaining)
    requires forall e :: e in remaining <==> e in ListOf(Active(s)) || e in failed
    requires u == t || u == WithJournal(t, remaining)
    ensures KeepsCache(s, u)
    ensures Valid(s) ==> Valid(u)
    ensures Valid(s) && (u == WithJournal(t, remaining) || (remaining == [] && Pending(s) == [])) ==>
              && Pending(u) == remaining
              && (EmbeddedIsPending(s) ==> Journaled(u))
    ensures Settled(s) ==> Settled(u)
  {
    hide ManifestIn, InvalidManifest, JournalIn, WellFormed, ReapedStale, Valid, Journaled, KeepsCache, WithJournal,
      Reaped;
    ReapedStaleFacts(s, t, failed);
    ReapingKeepsCache(s, t, Stale(Pending(s), Active(s)));
    ReapingKeepsValid(s, t);
    JournalReplaced(t, remaining);
    if u == WithJournal(t, remaining) {
      KeepsTransitive(s, t, u);
    }
    if Valid(s) && (u == WithJournal(t, remaining) || (remaining == [] && Pending(s) == [])) {
      if Pending(s) == [] {
        ValidJournal(t);
        NoJournal(t);
      }
      CleanupKeepsValid(s, t, u, failed, remaining);
    }
    if Settled(s) {
      ReapingKeepsSettled(s, t);
      KeepsLoaded(s, u);
      SettledFacts(s);
    }
  }

  lemma ReapingKeepsSettled(s: Store, t: Store)
    requires Settled(s) && Reaped(s, t, Stale(Pending(s), Active(s)))
    ensures Settled(t)
  {
    hide ManifestIn, InvalidManifest, JournalIn, ConsistentCounts;
    ReapingKeepsCache(s, t, Stale(Pending(s), Active(s)));
    ReapingKeepsValid(s, t);
    KeepsLoaded(s, t);
    assert forall a :: a in t ==> a in s;
  }

  lemma SettledFacts(s: Store)
    requires Settled(s)
    ensures Journaled(s) && Valid(s) && Embedded(s) == [] && EmbeddedIsPending(s)
  {
  }

  /** Without a primary the journal is all there is to claim chunks. */
  lemma NoPrimaryIsSettled(s: Store)
    requires Valid(s) && Primary !in s
    ensures Settled(s)
  {
    hide JournalIn, ManifestIn, InvalidManifest;
    assert Claims(s) == Pending(s);
  }

  lemma NoJournal(s: Store)
    ensures WithJournal(s, []) == s - {Journal}
  {
  }

  /** Every entry embedded in an older manifest has been migrated to the journal. */
  ghost predicate EmbeddedIsPending(s: Store) {
    forall e :: e in Embedded(s) ==> e in Pending(s)
  }

  lemma ReapedStaleFacts(s: Store, t: Store, failed: seq<Entry>)
    requires ReapedStale(s, t, failed)
    ensures Reaped(s, t, Stale(Pending(s), Active(s)))
    ensures forall e, d :: e in Stale(Pending(s), Active(s)) && d in ListOf(Active(s)) ==> e.generation != d.generation
  {
  }

  // ----- publishing -----

  predicate Fresh(generation: string, entries: seq<Entry>) {
    forall e :: e in entries ==> e.generation != generation
  }

  /** A generation that no claim names has no chunk: writing its chunks overwrites nothing. */
  lemma FreshGenerationIsEmpty(s: Store, entries: seq<Entry>, generation: string, i: nat)
    requires NoOrphan(s, entries) && Fresh(generation, entries)
    ensures Chunk(generation, i) !in s
  {
    assert !Owned(entries, Chunk(generation, i));
  }

  /** Writing a chunk of a journaled generation other than the active one keeps everything. */
  lemma ChunkWritten(s: Store, e: Entry, i: nat, value: string)
    requires i < e.count && Fresh(e.generation, ListOf(Active(s)))
    ensures var t := s[Chunk(e.generation, i) := value];
      && KeepsCache(s, t) && Pending(t) == Pending(s) && Readable(t) == Readable(s)
      && (Valid(s) && e in Pending(s) ==> Valid(t))
      && (Journaled(s) && e in Pending(s) ==> Journaled(t))
  {
    hide ManifestIn, InvalidManifest, JournalIn, ConsistentCounts, WellFormed;
    var t := s[Chunk(e.generation, i) := value];
    KeepsLoaded(s, t);
    assert e in Pending(s) ==> e in Claims(s);
  }

  /** The manifest of a complete generation, once in the primary, is what a load follows. */
  lemma ManifestLoads(s: Store, e: Entry)
    requires ValidEntry(e) && Complete(s, e)
    ensures var t := s[Primary := ManifestText(e, [])];
      && Active(t) == Some(e) && Embedded(t) == [] && !Refused(t) && Complete(t, e)
      && Loaded(t) == Payload(Join(ChunksOf(s, e)))
      && Pending(t) == Pending(s) && Readable(t) == Readable(s)
  {
    hide ManifestIn, JournalIn, ManifestText, Join, ManifestKey.Contains;
    var t := s[Primary := ManifestText(e, [])];
    assert WellFormed([]) && ConsistentCounts([e] + []);
    CacheFormatLaws.ManifestRoundTrip(e, []);
    assert ChunksOf(t, e) == ChunksOf(s, e);
  }

  /** A payload without the reserved root key, once in the primary, is what a load returns. */
  lemma DirectLoads(s: Store, text: string)
    requires !ManifestKey.Contains(text)
    ensures var t := s[Primary := text];
      && Active(t) == None && Embedded(t) == [] && !Refused(t) && Loaded(t) == Payload(text)
      && Pending(t) == Pending(s) && Readable(t) == Readable(s)
  {
    hide ManifestIn, JournalIn, ManifestKey.Contains;
    if ManifestIn(text).Some? {
      CacheFormatLaws.ManifestClaimsKey(text);
    }
  }

  /** Replacing the primary keeps the invariant when the journal alone claims every chunk. */
  lemma PrimaryReplaced(s: Store, text: string)
    requires Journaled(s)
    requires var t := s[Primary := text];
      && Pending(t) == Pending(s) && Readable(t) && Embedded(t) == [] && !Refused(t)
      && (forall e :: e in ListOf(Active(t)) ==> e in Pending(s) && Complete(s, e))
    ensures Journaled(s[Primary := text])
  {
    hide ManifestIn, InvalidManifest, JournalIn, ConsistentCounts, WellFormed;
    var t := s[Primary := text];
    assert forall e :: e in Claims(t) ==> e in Pending(s);
    assert forall e :: e in Pending(s) ==> e in Claims(s);
    ConsistentSubset(Claims(s), Claims(t));
    assert NoOrphan(t, Pending(t)) by {
      forall a | a in t ensures Owned(Pending(t), a) {
        assert a.Chunk? ==> a in s;
      }
    }
    NoOrphanMore(t, Pending(t), Claims(t));
    if Active(t).Some? {
      assert Active(t).value in ListOf(Active(t));
      assert Complete(s, Active(t).value);
    }
  }
}
