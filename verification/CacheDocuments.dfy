/**
 Exactly which documents the strict parsers of the cache accept: those that say what is printed for
 the same entries, with the members of each object in any order, and nothing besides.
 */
module CacheDocuments {
  import opened Basics
  import opened Json
  import opened ManifestKey
  import opened CacheFormat
  import opened CacheFormatLaws

  // ----- members by key -----

  lemma {:induction false} LookupExactly(members: seq<Member>, key: Units, value: Value)
    requires DistinctKeys(members)
    ensures Lookup(members, key) == Some(value) <==> Member(key, value) in members
  {
    if members != [] {
      var rest := members[1..];
      assert forall m :: m in members <==> m == members[0] || m in rest;
      assert forall m :: m in rest ==> m.key != members[0].key;
      LookupExactly(rest, key, value);
    }
  }

  lemma LookupNothing(members: seq<Member>, key: Units)
    requires DistinctKeys(members)
    ensures Lookup(members, key) == None <==> key !in Keys(members)
  {
    if Lookup(members, key).Some? {
      LookupExactly(members, key, Lookup(members, key).value);
      assert Member(key, Lookup(members, key).value) in members;
    } else {
      forall m | m in members ensures m.key != key {
        LookupExactly(members, key, m.value);
      }
    }
  }

  lemma {:induction false} OccursOnce(members: seq<Member>, m: Member)
    requires DistinctKeys(members)
    ensures multiset(members)[m] == if m in members then 1 else 0
  {
    if members != [] {
      var rest := members[1..];
      assert members == [members[0]] + rest;
      assert forall n :: n in rest ==> n.key != members[0].key;
      OccursOnce(rest, m);
    }
  }

  /** Members with distinct keys are these, in some order, exactly when they have these keys and values. */
  lemma TheseMembers(members: seq<Member>, these: seq<Member>)
    requires DistinctKeys(members) && DistinctKeys(these)
    ensures multiset(members) == multiset(these)
      <==> Keys(members) == Keys(these) && forall m :: m in these ==> m in members
  {
    forall m ensures multiset(members)[m] == (if m in members then 1 else 0)
                     && multiset(these)[m] == if m in these then 1 else 0 {
      OccursOnce(members, m);
      OccursOnce(these, m);
    }
    if multiset(members) == multiset(these) {
      assert forall m :: m in members <==> m in multiset(members);
      assert forall m :: m in these <==> m in multiset(these);
    } else if Keys(members) == Keys(these) && forall m :: m in these ==> m in members {
      forall m | m in members ensures m in these {
        assert m.key in Keys(these);
        var n :| n in these && n.key == m.key;
        SameKey(members, m, n);
      }
    }
  }

  lemma SameKey(members: seq<Member>, m: Member, n: Member)
    requires DistinctKeys(members) && m in members && n in members && m.key == n.key
    ensures m == n
  {
  }

  // ----- entries -----

  /** The object has exactly the two members of an entry, in either order. */
  predicate NamesEntry(v: Value, e: Entry) {
    v.Object? && multiset(v.members) == multiset{GenerationMember(e), CountMember(e)}
  }

  lemma GenerationExactly(v: Value, generation: string)
    ensures GenerationOf(v) == Some(generation) <==> ValidGeneration(generation) && v == Str(Codes(generation))
  {
    if GenerationOf(v) == Some(generation) {
      assert v.text == Codes(generation);
    }
    if ValidGeneration(generation) {
      GenerationBack(generation);
    }
  }

  lemma EntryInExactly(members: seq<Member>, e: Entry)
    requires DistinctKeys(members)
    ensures EntryIn(members) == Some(e)
      <==> ValidEntry(e) && GenerationMember(e) in members && CountMember(e) in members
  {
    hide Lookup, GenerationOf, Codes, ValidGeneration;
    var g, n := Lookup(members, Codes(GENERATION)), Lookup(members, Codes(COUNT));
    LookupExactly(members, Codes(GENERATION), Str(Codes(e.generation)));
    LookupExactly(members, Codes(COUNT), Int(e.count));
    if g.Some? {
      GenerationExactly(g.value, e.generation);
    }
  }

  lemma TwoMembers(e: Entry)
    ensures DistinctKeys([GenerationMember(e), CountMember(e)])
    ensures Keys([GenerationMember(e), CountMember(e)]) == {Codes(GENERATION), Codes(COUNT)}
    ensures multiset([GenerationMember(e), CountMember(e)]) == multiset{GenerationMember(e), CountMember(e)}
  {
    hide Codes;
    DistinctNames();
    var these := [GenerationMember(e), CountMember(e)];
    assert these[0] in these && these[1] in these;
  }

  lemma EntryExactly(v: Value, e: Entry)
    requires Unambiguous(v)
    ensures EntryOf(v) == Some(e) <==> ValidEntry(e) && NamesEntry(v, e)
  {
    hide EntryIn, Keys, GenerationMember, CountMember, DistinctKeys;
    if v.Object? {
      var these := [GenerationMember(e), CountMember(e)];
      TwoMembers(e);
      TheseMembers(v.members, these);
      EntryInExactly(v.members, e);
      assert these[0] in these && these[1] in these;
    }
  }

  predicate NamesEntries(items: seq<Value>, entries: seq<Entry>) {
    |items| == |entries| && forall i :: 0 <= i < |items| ==> NamesEntry(items[i], entries[i])
  }

  lemma {:induction false} EntriesExactly(items: seq<Value>, entries: seq<Entry>)
    requires forall v :: v in items ==> Unambiguous(v)
    ensures EntriesOf(items) == Some(entries) <==> AllValid(entries) && NamesEntries(items, entries)
  {
    hide EntryOf, NamesEntry, ValidEntry;
    if items != [] && entries != [] {
      var rest := entries[1..];
      EntryExactly(items[0], entries[0]);
      EntriesExactly(items[1..], rest);
      assert entries == [entries[0]] + rest;
      assert forall e :: e in entries <==> e == entries[0] || e in rest;
      assert forall i :: 1 <= i < |items| ==> items[i] == items[1..][i - 1];
      assert forall i :: 1 <= i < |entries| ==> entries[i] == rest[i - 1];
    } else if items != [] {
      assert EntriesOf(items) != Some([]);
    }
  }

  // ----- journals -----

  function CleanupList(items: seq<Value>): Member {
    Member(Codes("cleanup"), Array(items))
  }

  ghost predicate NamesJournal(v: Value, entries: seq<Entry>) {
    exists items :: v == Object([CleanupList(items)]) && NamesEntries(items, entries)
  }

  lemma OneMember(members: seq<Member>, m: Member)
    requires DistinctKeys(members)
    ensures members == [m] <==> Keys(members) == {m.key} && m in members
  {
    var these := [m];
    assert these[0] in these;
    assert Keys(these) == {m.key};
    TheseMembers(members, these);
    if multiset(members) == multiset(these) {
      assert |members| == |multiset(members)| == 1;
      assert members[0] in multiset(these);
    }
  }

  lemma ListIsUnambiguous(members: seq<Member>, items: seq<Value>)
    requires Unambiguous(Object(members)) && CleanupList(items) in members
    ensures forall v :: v in items ==> Unambiguous(v)
  {
    assert Unambiguous(CleanupList(items).value);
  }

  lemma JournalExactly(v: Value, entries: seq<Entry>)
    requires Unambiguous(v)
    ensures JournalOf(v) == Some(entries) <==> WellFormed(entries) && NamesJournal(v, entries)
  {
    hide EntriesOf, WellFormed, NamesEntries, Unambiguous, Keys, Codes, Lookup;
    if JournalOf(v) == Some(entries) {
      DistinctOf(v);
      var items := Lookup(v.members, Codes(CLEANUP)).value.items;
      LookupExactly(v.members, Codes(CLEANUP), Array(items));
      ListIsUnambiguous(v.members, items);
      EntriesExactly(items, entries);
      OneMember(v.members, CleanupList(items));
    }
    if WellFormed(entries) && NamesJournal(v, entries) {
      DistinctOf(v);
      var items :| v == Object([CleanupList(items)]) && NamesEntries(items, entries);
      assert v.members[0] in v.members;
      OneMember(v.members, CleanupList(items));
      LookupExactly(v.members, Codes(CLEANUP), Array(items));
      ListIsUnambiguous(v.members, items);
      WellFormedValid(entries);
      EntriesExactly(items, entries);
    }
  }

  lemma DistinctOf(v: Value)
    requires Unambiguous(v) && v.Object?
    ensures DistinctKeys(v.members)
  {
  }

  /** A journal is read from a text exactly when the text says just that, and the entries may be journaled. */
  lemma JournalInExactly(text: string, entries: seq<Entry>)
    ensures JournalIn(text) == Some(entries)
      <==> WellFormed(entries) && StrictLoads(text).Some? && NamesJournal(StrictLoads(text).value, entries)
  {
    hide ParseText, JournalOf, WellFormed, NamesJournal, Unambiguous;
    if StrictLoads(text).Some? {
      JournalExactly(StrictLoads(text).value, entries);
    }
  }

  // ----- manifests -----

  /** The object has the members of the active entry and, unless nothing is listed, the cleanup list, in any order. */
  ghost predicate NamesManifest(v: Value, m: Manifest) {
    && v.Object?
    && (|| (NamesEntry(v, m.active) && m.cleanup == [])
        || exists items ::
             && multiset(v.members) == multiset{GenerationMember(m.active), CountMember(m.active), CleanupList(items)}
             && NamesEntries(items, m.cleanup))
  }

  lemma ThreeMembers(e: Entry, items: seq<Value>)
    ensures var these := [GenerationMember(e), CountMember(e), CleanupList(items)];
      && DistinctKeys(these) && Keys(these) == {Codes(GENERATION), Codes(COUNT), Codes(CLEANUP)}
      && multiset(these) == multiset{GenerationMember(e), CountMember(e), CleanupList(items)}
      && forall m :: m in these <==> m == GenerationMember(e) || m == CountMember(e) || m == CleanupList(items)
  {
    hide Codes;
    DistinctNames();
    var these := [GenerationMember(e), CountMember(e), CleanupList(items)];
    assert these[0] in these && these[1] in these && these[2] in these;
  }

  /** With a cleanup list among its members, the object is a manifest exactly when these are all. */
  lemma ListedExactly(members: seq<Member>, items: seq<Value>, m: Manifest)
    requires Unambiguous(Object(members)) && CleanupList(items) in members
    ensures ManifestOf(Object(members)) == Some(m)
      <==> && Sound(m) && NamesEntries(items, m.cleanup)
           && multiset(members) == multiset{GenerationMember(m.active), CountMember(m.active), CleanupList(items)}
  {
    hide EntryIn, EntriesOf, WellFormed, NamesEntries, Unambiguous, Keys, Codes, Lookup, GenerationMember, CountMember,
      ConsistentCounts, DistinctKeys;
    DistinctOf(Object(members));
    var these := [GenerationMember(m.active), CountMember(m.active), CleanupList(items)];
    ThreeMembers(m.active, items);
    TheseMembers(members, these);
    LookupExactly(members, Codes(CLEANUP), Array(items));
    EntryInExactly(members, m.active);
    ListIsUnambiguous(members, items);
    EntriesExactly(items, m.cleanup);
    assert CleanupIn(members) == EntriesOf(items);
    HasItsKey(members, CleanupList(items));
    if WellFormed(m.cleanup) {
      WellFormedValid(m.cleanup);
    }
  }

  lemma HasItsKey(members: seq<Member>, m: Member)
    requires m in members
    ensures m.key in Keys(members) && (Codes(CLEANUP) == m.key ==> Keys(members) != {Codes(GENERATION), Codes(COUNT)})
  {
    hide Codes;
    DistinctNames();
  }

  lemma BareExactly(members: seq<Member>, m: Manifest)
    requires Unambiguous(Object(members)) && Codes(CLEANUP) !in Keys(members)
    ensures ManifestOf(Object(members)) == Some(m)
      <==> Sound(m) && NamesEntry(Object(members), m.active) && m.cleanup == []
  {
    hide EntryIn, EntriesOf, WellFormed, Unambiguous, Keys, Codes, Lookup, GenerationMember, CountMember,
      ConsistentCounts, DistinctKeys;
    DistinctOf(Object(members));
    var these := [GenerationMember(m.active), CountMember(m.active)];
    TwoMembers(m.active);
    TheseMembers(members, these);
    assert these[0] in these && these[1] in these;
    LookupNothing(members, Codes(CLEANUP));
    EntryInExactly(members, m.active);
  }

  lemma ManifestExactly(v: Value, m: Manifest)
    requires Unambiguous(v)
    ensures ManifestOf(v) == Some(m) <==> Sound(m) && NamesManifest(v, m)
  {
    hide EntryIn, CleanupIn, NamesEntries, Unambiguous, Codes, Sound, GenerationMember, CountMember;
    if v.Object? {
      var members := v.members;
      DistinctOf(v);
      if Codes(CLEANUP) !in Keys(members) {
        BareExactly(members, m);
        NoListAmong(members);
      } else {
        var c :| c in members && c.key == Codes(CLEANUP);
        if c.value.Array? {
          ListedExactly(members, c.value.items, m);
          OnlyList(members, c.value.items);
          NotBare(members, m.active, c);
        } else {
          NotAList(members, c);
          NotBare(members, m.active, c);
          NoOtherList(members, c);
        }
      }
    }
  }

  lemma NoListAmong(members: seq<Member>)
    requires Codes(CLEANUP) !in Keys(members)
    ensures forall items :: CleanupList(items) !in multiset(members)
  {
    hide Codes;
    forall items ensures CleanupList(items) !in members {
      if CleanupList(items) in members {
        HasItsKey(members, CleanupList(items));
      }
    }
  }

  lemma OnlyList(members: seq<Member>, items: seq<Value>)
    requires DistinctKeys(members) && CleanupList(items) in members
    ensures forall others :: CleanupList(others) in multiset(members) ==> others == items
  {
    hide Codes;
    forall others | CleanupList(others) in members ensures others == items {
      SameKey(members, CleanupList(others), CleanupList(items));
    }
  }

  lemma NotBare(members: seq<Member>, e: Entry, c: Member)
    requires c in members && c.key == Codes(CLEANUP)
    ensures !NamesEntry(Object(members), e)
  {
    hide Codes;
    DistinctNames();
    assert c in multiset(members);
  }

  lemma NotAList(members: seq<Member>, c: Member)
    requires DistinctKeys(members) && c in members && c.key == Codes(CLEANUP) && !c.value.Array?
    ensures CleanupIn(members) == None
  {
    hide Codes;
    LookupExactly(members, c.key, c.value);
  }

  lemma NoOtherList(members: seq<Member>, c: Member)
    requires DistinctKeys(members) && c in members && c.key == Codes(CLEANUP) && !c.value.Array?
    ensures forall items :: CleanupList(items) !in multiset(members)
  {
    hide Codes;
    forall items ensures CleanupList(items) !in members {
      if CleanupList(items) in members {
        SameKey(members, CleanupList(items), c);
      }
    }
  }

  /** A manifest is read from a text exactly when the text says just that under the reserved key, and it is sound. */
  lemma ManifestInExactly(text: string, m: Manifest)
    ensures ManifestIn(text) == Some(m)
      <==> && Sound(m) && StrictLoads(text).Some?
           && exists v ::
                && StrictLoads(text).value == Object([Member(Codes("windows-cache-chunks"), v)]) && NamesManifest(v, m)
  {
    hide ParseText, ManifestOf, Sound, NamesManifest, KeyUnits, Codes, Lookup, Keys, DistinctKeys;
    KeyUnitsAreCodes(0);
    assert MANIFEST_KEY[0..] == "windows-cache-chunks";
    if StrictLoads(text).Some? && StrictLoads(text).value.Object? {
      var members := StrictLoads(text).value.members;
      DistinctOf(Object(members));
      if Lookup(members, KeyUnits(0)).Some? {
        var v := Lookup(members, KeyUnits(0)).value;
        LookupExactly(members, KeyUnits(0), v);
        OneMember(members, Member(KeyUnits(0), v));
        ManifestExactly(v, m);
      }
      forall v | members == [Member(KeyUnits(0), v)] ensures Lookup(members, KeyUnits(0)) == Some(v) {
        assert members[0] in members;
        LookupExactly(members, KeyUnits(0), v);
        OneMember(members, Member(KeyUnits(0), v));
      }
    }
  }
}
