/**
 Stores that an earlier version left behind, with a cleanup list in the manifest itself, in which
 an operation is refused or breaks the invariant although every call works.
 */
module OlderManifests {
  import opened Basics
  import opened Json
  import opened CacheFormat
  import opened Keyring
  import opened CacheState
  import opened CleanupJournal
  import opened CredentialCache
  import opened SignOut
  import CacheFormatLaws

  /** Pairwise different generations. */
  function Generation(i: nat): (generation: string)
    requires i <= 32
    ensures ValidGeneration(generation)
  {
    seq(32, k => if k < i then 'a' else 'b')
  }

  lemma GenerationsDiffer(i: nat, j: nat)
    requires i < j <= 32
    ensures Generation(i) != Generation(j)
  {
    assert Generation(i)[i] == 'b' && Generation(j)[i] == 'a';
  }

  function Single(i: nat): Entry
    requires i <= 32
  {
    Entry(Generation(i), 1)
  }

  /** The entries numbered from 1 to `n`. */
  function Listed(n: nat): (entries: seq<Entry>)
    requires n <= 32
    ensures |entries| == n && forall k :: 0 <= k < n ==> entries[k] == Single(k + 1)
  {
    seq(n, k requires 0 <= k < n => Single(k + 1))
  }

  lemma SinglesAgree(entries: seq<Entry>)
    requires forall e :: e in entries ==> e.count == 1
    ensures ConsistentCounts(entries)
  {
  }

  lemma ListedSound(n: nat)
    requires n <= 16
    ensures WellFormed(Listed(n)) && Single(0) !in Listed(n)
    ensures forall e :: e in Listed(n) ==> e.count == 1
  {
    hide Generation, Listed, ConsistentCounts;
    forall j, k | 0 <= j < k < n ensures Listed(n)[j] != Listed(n)[k] {
      GenerationsDiffer(j + 1, k + 1);
    }
    forall k | 0 <= k < n ensures Listed(n)[k] != Single(0) {
      GenerationsDiffer(0, k + 1);
    }
    SinglesAgree(Listed(n));
  }

  /** An active generation of one chunk, a cleanup list, and the journal, if it names anything. */
  function Older(active: Entry, cleanup: seq<Entry>, journal: seq<Entry>): Store {
    var s: Store := map[Primary := ManifestText(active, cleanup), Chunk(active.generation, 0) := "x"];
    if journal == [] then s else s[Journal := JournalText(journal)]
  }

  lemma OlderSays(active: Entry, cleanup: seq<Entry>, journal: seq<Entry>)
    requires ValidEntry(active) && active.count == 1 && WellFormed(cleanup) && WellFormed(journal)
    requires ConsistentCounts(journal + ([active] + cleanup)) && ConsistentCounts([active] + cleanup)
    ensures var s := Older(active, cleanup, journal);
      Valid(s) && Active(s) == Some(active) && Embedded(s) == cleanup && Pending(s) == journal
    ensures active in journal ==> Journaled(Older(active, cleanup, journal))
  {
    hide ManifestIn, JournalIn, ManifestText, JournalText, WellFormed, ConsistentCounts, ManifestKey.Contains;
    var s := Older(active, cleanup, journal);
    CacheFormatLaws.ManifestRoundTrip(active, cleanup);
    CacheFormatLaws.JournalRoundTrip(journal);
    assert ListOf(Active(s)) == [active];
    assert active in Claims(s);
    assert forall a :: a in s && a.Chunk? ==> a == Chunk(active.generation, 0);
  }

  // ----- logouts that are refused every time -----

  /** The list repeats the active entry: the journal is readable and has room, but a logout is refused. */
  lemma RepeatedEntryRefusesLogout()
    ensures var s := Older(Single(0), [Single(0)], []);
      Valid(s) && !Removable(s) && |set e | e in Claims(s)| == 1
  {
    hide ManifestText, Valid, Older, Generation, WellFormed, ConsistentCounts;
    var s := Older(Single(0), [Single(0)], []);
    NothingJournaled();
    OneJournaled(Single(0));
    SinglesAgree([Single(0)] + [Single(0)]);
    SinglesAgree([] + ([Single(0)] + [Single(0)]));
    OlderSays(Single(0), [Single(0)], []);
    assert (set e | e in Claims(s)) == {Single(0)};
  }

  /** A list of sixteen other entries leaves no room for the active one. */
  lemma FullListRefusesLogout()
    ensures var s := Older(Single(0), Listed(16), []);
      Valid(s) && !Removable(s) && Single(0) !in Embedded(s)
  {
    hide ManifestText, Valid, Older, Generation, Listed, ConsistentCounts, WellFormed;
    var s := Older(Single(0), Listed(16), []);
    var all := [Single(0)] + Listed(16);
    ListedSound(16);
    SinglesAgree(all);
    assert [] + all == all;
    NothingJournaled();
    OlderSays(Single(0), Listed(16), []);
    assert Claims(s) == all;
    SeventeenEntries(all, Single(0));
  }

  lemma NothingJournaled()
    ensures WellFormed([])
  {
  }

  lemma SeventeenEntries(all: seq<Entry>, e: Entry)
    requires all == [e] + Listed(16) && e !in Listed(16) && WellFormed(Listed(16))
    ensures |set d | d in all| == 17
  {
    hide Listed, ConsistentCounts;
    forall k | 0 < k < 17 ensures all[k] != e {
      assert all[k] == Listed(16)[k - 1];
    }
    assert forall j, k :: 0 < j < k < 17 ==> all[j] == Listed(16)[j - 1] && all[k] == Listed(16)[k - 1];
    DistinctSize(all);
  }

  /** With another entry in the journal the list cannot even be migrated, so stores are refused too. */
  lemma FullListRefusesStore()
    ensures var s := Older(Single(0), Listed(16), [Single(17)]);
      Valid(s) && !Migratable(s) && !Removable(s)
  {
    hide ManifestText, Valid, Older, Generation, Listed, ConsistentCounts, WellFormed;
    var s := Older(Single(0), Listed(16), [Single(17)]);
    ListedSound(16);
    SinglesAgree([Single(0)] + Listed(16));
    SinglesAgree([Single(17)] + ([Single(0)] + Listed(16)));
    OneJournaled(Single(17));
    OlderSays(Single(0), Listed(16), [Single(17)]);
    var listed := [Single(17)] + Listed(16);
    assert Pending(s) + Embedded(s) == listed;
    forall k | 0 <= k < 16 ensures Listed(16)[k] != Single(17) {
      GenerationsDiffer(k + 1, 17);
    }
    SeventeenEntries(listed, Single(17));
    SubsetSize(set e | e in listed, set e | e in Claims(s));
  }

  lemma OneJournaled(e: Entry)
    requires ValidEntry(e)
    ensures WellFormed([e])
  {
  }

  lemma SubsetSize(small: set<Entry>, large: set<Entry>)
    requires small <= large
    ensures |small| <= |large|
  {
    assert large == small + (large - small);
  }

  lemma {:induction false} AllStale(entries: seq<Entry>, active: Option<Entry>)
    requires active.Some? ==> forall e :: e in entries ==> e.generation != active.value.generation
    ensures Stale(entries, active) == entries
  {
    if entries != [] {
      assert entries[0] in entries;
      AllStale(entries[1..], active);
    }
  }

  lemma NoListToReap(s: Store)
    requires Valid(s) && Embedded(s) == []
    ensures Migratable(s) && ToReap(s) == Stale(Pending(s), Active(s))
  {
    hide Valid, Migratable, Recorded, Stale;
    RecordEmbeddedKeeps(s);
    MigratableExactly(s);
  }

  /** Sixteen stale entries besides an active one that is not journaled: if none can be reaped, they do not fit. */
  lemma FullJournalCannotFail()
    ensures var s := Older(Single(0), [], Listed(16));
      Valid(s) && Migratable(s) && ToReap(s) == Listed(16) && |Remaining(s, ToReap(s))| == 17
  {
    hide ManifestText, Valid, Older, Generation, Listed, ConsistentCounts, WellFormed, ToReap, Migratable, Stale;
    var s := Older(Single(0), [], Listed(16));
    ListedSound(16);
    NothingJournaled();
    SinglesAgree([Single(0)] + []);
    SinglesAgree(Listed(16) + ([Single(0)] + []));
    OlderSays(Single(0), [], Listed(16));
    NoListToReap(s);
    forall e | e in Listed(16) ensures e.generation != Single(0).generation {
      var k :| 0 <= k < 16 && Listed(16)[k] == e;
      GenerationsDiffer(0, k + 1);
    }
    AllStale(Listed(16), Some(Single(0)));
  }

  // ----- a draw that breaks the invariant -----

  /**
   The listed generation has been reaped and the journal names the active entry alone, as a cleanup
   leaves them. Drawing the listed generation again, for two chunks, contradicts the list.
   */
  lemma DrawnAgainBreaksCounts()
    ensures var s := Older(Single(0), [Single(1)], [Single(0)]); var drawn := Entry(Generation(1), 2);
      && Journaled(s) && ValidEntry(drawn) && Fresh(drawn.generation, ListOf(Active(s)) + Pending(s))
      && Recorded(s, ListOf(Active(s)) + [drawn]).Ok?
      && !Valid(s[Journal := JournalText(Recorded(s, ListOf(Active(s)) + [drawn]).value)])
  {
    hide ManifestText, JournalText, JournalIn, ManifestIn, Valid, Journaled, Older, Generation, Merge, ConsistentCounts,
      WellFormed, Recorded;
    var active := Single(0);
    var drawn := Entry(Generation(1), 2);
    var s := Older(active, [Single(1)], [active]);
    GenerationsDiffer(0, 1);
    OneJournaled(active);
    OneJournaled(Single(1));
    SinglesAgree([active] + [Single(1)]);
    SinglesAgree([active] + ([active] + [Single(1)]));
    OlderSays(active, [Single(1)], [active]);
    assert Fresh(drawn.generation, ListOf(Active(s)) + Pending(s));
    DrawnIsRecorded(s, active, drawn);
    RecordNewValidExactly(s, drawn);
    assert [Single(1)][0] in Embedded(s);
  }

  lemma DrawnIsRecorded(s: Store, active: Entry, drawn: Entry)
    requires Journaled(s) && Pending(s) == [active] == ListOf(Active(s)) && active.generation != drawn.generation
    requires ValidEntry(drawn)
    ensures Recorded(s, ListOf(Active(s)) + [drawn]).Ok?
  {
    hide JournalIn, ManifestIn, Merge, Journaled;
    var added := [active] + [drawn];
    MergeExactly([active], added);
    assert (set e | e in [active] + added) == {active, drawn};
    JournaledIsReadable(s);
  }
}
