/**
 Every document the cache writes is read back by its own strict parser to the same entries and
 fits in one chunk; a manifest that is cut short claims its format and is refused.
 */
module CacheFormatLaws {
  import opened Basics
  import opened Json
  import opened ManifestKey
  import opened CacheFormat
  import ManifestKeyLaws
  import JsonDepth

  // ----- text at a position -----

  predicate TextAt(s: string, i: nat, t: string) {
    i + |t| <= |s| && s[i..i + |t|] == t
  }

  lemma TextSplit(s: string, i: nat, a: string, b: string)
    requires TextAt(s, i, a + b)
    ensures TextAt(s, i, a) && TextAt(s, i + |a|, b)
  {
    var t := s[i..i + |a + b|];
    assert s[i..i + |a|] == t[..|a|] == a;
    assert s[i + |a|..i + |a| + |b|] == t[|a|..] == b;
  }

  lemma CharAt(s: string, i: nat, c: char, rest: string)
    requires TextAt(s, i, [c] + rest)
    ensures i < |s| && s[i] == c && TextAt(s, i + 1, rest)
  {
    TextSplit(s, i, [c], rest);
    assert s[i] == s[i..i + 1][0];
  }

  lemma NoSpace(s: string, i: nat)
    requires i < |s| && !IsSpace(s[i])
    ensures SkipSpace(s, i) == i
  {
  }

  // ----- strings and numbers -----

  predicate Plain(c: char) {
    ' ' <= c && c != '"' && c != '\\' && c as int < 0x80
  }

  predicate AllPlain(t: string) {
    forall k :: 0 <= k < |t| ==> Plain(t[k])
  }

  lemma {:induction false} BodyReads(s: string, i: nat, body: string)
    requires TextAt(s, i, body + "\"") && AllPlain(body)
    ensures StringBody(s, i) == Read(Codes(body), i + |body| + 1)
    decreases |body|
  {
    if body == "" {
      CharAt(s, i, '"', "");
    } else {
      assert body + "\"" == [body[0]] + (body[1..] + "\"");
      CharAt(s, i, body[0], body[1..] + "\"");
      assert Plain(body[0]);
      BodyReads(s, i + 1, body[1..]);
      assert CharUnits(body[0]) + Codes(body[1..]) == Codes(body);
    }
  }

  lemma StringReads(s: string, i: nat, body: string, rest: string)
    requires TextAt(s, i, Quoted(body) + rest) && AllPlain(body)
    ensures ParseString(s, i) == Read(Codes(body), i + |body| + 2)
    ensures TextAt(s, i + |body| + 2, rest)
  {
    hide StringBody, Codes, AllPlain, TextAt;
    TextSplit(s, i, Quoted(body), rest);
    assert Quoted(body) == ['"'] + (body + "\"");
    CharAt(s, i, '"', body + "\"");
    BodyReads(s, i + 1, body);
    TextBounds(s, i + |body| + 2, rest);
  }

  lemma {:induction false} PrintNatDecimal(n: nat)
    ensures Decimal(PrintNat(n)) == n
  {
    if n >= 10 {
      PrintNatDecimal(n / 10);
      assert PrintNat(n)[..|PrintNat(n)| - 1] == PrintNat(n / 10);
    } else {
      assert PrintNat(n)[..0] == "";
    }
  }

  lemma {:induction false} DigitsRead(s: string, i: nat, j: nat)
    requires i <= j <= |s| && forall k :: i <= k < j ==> IsDigit(s[k])
    requires j < |s| ==> !IsDigit(s[j])
    ensures DigitsEnd(s, i) == j
    decreases j - i
  {
    if i < j {
      DigitsRead(s, i + 1, j);
    }
  }

  predicate EndsNumber(c: char) {
    !IsDigit(c) && c != '.' && c != 'e' && c != 'E'
  }

  /** A printed count reads back as that integer. */
  lemma NatReads(s: string, i: nat, n: nat)
    requires TextAt(s, i, PrintNat(n)) && n > 0
    requires i + |PrintNat(n)| < |s| && EndsNumber(s[i + |PrintNat(n)|])
    ensures ParseValue(s, i) == Read(Int(n), i + |PrintNat(n)|)
  {
    hide ParseItems, ParseMembers, PrintNat, Decimal;
    var t := PrintNat(n);
    var j := i + |t|;
    assert forall k :: i <= k < j ==> s[k] == s[i..j][k - i] == t[k - i];
    assert s[i] == t[0];
    assert IsDigit(s[i]) && s[i] != '0';
    DigitsRead(s, i, j);
    NoWordAt(s, i);
    PrintNatDecimal(n);
  }

  lemma NoWordAt(s: string, i: nat)
    requires i < |s| && IsDigit(s[i])
    ensures !Literally(s, i, "null") && !Literally(s, i, "true") && !Literally(s, i, "false")
  {
    if i + 4 <= |s| {
      assert s[i..i + 4][0] == s[i];
    }
    if i + 5 <= |s| {
      assert s[i..i + 5][0] == s[i];
    }
  }

  // ----- one grammar step at a time -----

  lemma MemberLayout(s: string, i: nat, key: string, rest: string)
    requires TextAt(s, i, Quoted(key) + (":" + rest)) && AllPlain(key)
    requires rest != "" && !IsSpace(rest[0])
    ensures var colon := i + |key| + 2;
      && ParseString(s, i) == Read(Codes(key), colon)
      && colon + 1 < |s| && s[colon] == ':' && s[colon + 1] == rest[0]
  {
    hide ParseString, Codes, AllPlain;
    StringReads(s, i, key, ":" + rest);
    var colon := i + |key| + 2;
    CharAt(s, colon, ':', rest);
    assert rest == [rest[0]] + rest[1..];
    CharAt(s, colon + 1, rest[0], rest[1..]);
  }

  lemma MemberReads(s: string, i: nat, key: string, rest: string)
    requires TextAt(s, i, Quoted(key) + (":" + rest)) && AllPlain(key)
    requires rest != "" && !IsSpace(rest[0])
    requires var r := ParseValue(s, i + |key| + 3); r.Read? && r.end < |s| && !IsSpace(s[r.end])
    ensures var r := ParseValue(s, i + |key| + 3); ParseMember(s, i) == Read(Member(Codes(key), r.value), r.end)
  {
    hide ParseValue, ParseString, SkipSpace, Codes, AllPlain, TextAt, Quoted;
    MemberLayout(s, i, key, rest);
    var colon := i + |key| + 2;
    NoSpace(s, colon);
    NoSpace(s, colon + 1);
    NoSpace(s, ParseValue(s, colon + 1).end);
  }

  lemma TextValueReads(s: string, i: nat, body: string, rest: string)
    requires TextAt(s, i, Quoted(body) + rest) && AllPlain(body)
    ensures ParseValue(s, i) == Read(Str(Codes(body)), i + |body| + 2)
    ensures TextAt(s, i + |body| + 2, rest)
  {
    hide ParseItems, ParseMembers, ParseNumber, StringBody, Codes;
    StringReads(s, i, body, rest);
  }

  lemma MembersLast(s: string, i: nat)
    requires i <= |s|
    requires var r := ParseMember(s, i); r.Read? && r.end < |s| && s[r.end] == '}'
    ensures ParseMembers(s, i) == Read([ParseMember(s, i).value], ParseMember(s, i).end + 1)
  {
    hide ParseMember;
  }

  lemma MembersCons(s: string, i: nat)
    requires i <= |s|
    requires var r := ParseMember(s, i);
      r.Read? && r.end + 1 < |s| && s[r.end] == ',' && !IsSpace(s[r.end + 1]) && ParseMembers(s, r.end + 1).Read?
    ensures var r := ParseMember(s, i); var rest := ParseMembers(s, r.end + 1);
      ParseMembers(s, i) == Read([r.value] + rest.value, rest.end)
  {
    hide ParseMember, SkipSpace;
    NoSpace(s, ParseMember(s, i).end + 1);
  }

  lemma ObjectReads(s: string, i: nat)
    requires i + 1 < |s| && s[i] == '{' && !IsSpace(s[i + 1]) && s[i + 1] != '}' && ParseMembers(s, i + 1).Read?
    ensures var members := ParseMembers(s, i + 1);
      ParseValue(s, i) == ParseObject(s, i) == Read(Object(members.value), members.end)
  {
    hide ParseMembers;
    NoSpace(s, i + 1);
  }

  // ----- entries -----

  lemma GenerationPlain(generation: string)
    requires ValidGeneration(generation)
    ensures AllPlain(generation)
  {
    forall k | 0 <= k < |generation| ensures Plain(generation[k]) {
      assert generation[k] in generation;
    }
  }

  function GenerationMember(e: Entry): Member {
    Member(Codes("generation"), Str(Codes(e.generation)))
  }

  function CountMember(e: Entry): Member {
    Member(Codes("count"), Int(e.count))
  }

  function EntryValue(e: Entry): Value {
    Object([GenerationMember(e), CountMember(e)])
  }

  lemma TextMemberReads(s: string, i: nat, key: string, body: string, rest: string)
    requires TextAt(s, i, Quoted(key) + (":" + (Quoted(body) + rest))) && AllPlain(key) && AllPlain(body)
    requires rest != "" && !IsSpace(rest[0])
    ensures var end := i + |key| + |body| + 5;
      && ParseMember(s, i) == Read(Member(Codes(key), Str(Codes(body))), end)
      && TextAt(s, end, rest)
  {
    hide ParseMember, ParseValue, Codes, TextAt, AllPlain;
    var value := Quoted(body) + rest;
    TextSplit(s, i, Quoted(key), ":" + value);
    CharAt(s, i + |key| + 2, ':', value);
    TextValueReads(s, i + |key| + 3, body, rest);
    assert rest == [rest[0]] + rest[1..];
    CharAt(s, i + |key| + |body| + 5, rest[0], rest[1..]);
    MemberReads(s, i, key, value);
  }

  lemma NumberMemberReads(s: string, i: nat, key: string, n: nat)
    requires TextAt(s, i, Quoted(key) + (":" + PrintNat(n))) && AllPlain(key) && n > 0
    requires var end := i + |key| + 3 + |PrintNat(n)|; end < |s| && (s[end] == '}' || s[end] == ',')
    ensures ParseMember(s, i) == Read(Member(Codes(key), Int(n)), i + |key| + 3 + |PrintNat(n)|)
  {
    hide ParseMember, ParseValue, Codes, PrintNat, TextAt, AllPlain;
    TextSplit(s, i, Quoted(key), ":" + PrintNat(n));
    CharAt(s, i + |key| + 2, ':', PrintNat(n));
    NatReads(s, i + |key| + 3, n);
    MemberReads(s, i, key, PrintNat(n));
  }

  /** Where the comma between the two members of an entry stands. */
  function CommaAt(i: nat, e: Entry): nat {
    i + |e.generation| + 15
  }

  /** The two members of an entry are read one after the other; a brace or a comma ends the count. */
  lemma EntryMembersRead(s: string, i: nat, e: Entry)
    requires TextAt(s, i, EntryMembers(e)) && ValidEntry(e)
    requires var end := i + |EntryMembers(e)|; end < |s| && (s[end] == '}' || s[end] == ',')
    ensures var comma := CommaAt(i, e);
      && comma + 1 < |s| && s[comma] == ',' && s[comma + 1] == '"'
      && ParseMember(s, i) == Read(GenerationMember(e), comma)
      && ParseMember(s, comma + 1) == Read(CountMember(e), i + |EntryMembers(e)|)
  {
    hide ParseMember, PrintNat, Codes;
    var counted := Quoted(COUNT) + (":" + PrintNat(e.count));
    GenerationPlain(e.generation);
    TextMemberReads(s, i, GENERATION, e.generation, "," + counted);
    var comma := CommaAt(i, e);
    CharAt(s, comma, ',', counted);
    assert counted == ['"'] + counted[1..];
    CharAt(s, comma + 1, '"', counted[1..]);
    NumberMemberReads(s, comma + 1, COUNT, e.count);
  }

  lemma EntryReads(s: string, i: nat, e: Entry)
    requires TextAt(s, i, EntryText(e)) && ValidEntry(e)
    ensures ParseValue(s, i) == Read(EntryValue(e), i + |EntryText(e)|)
  {
    hide ParseMember, ParseMembers, ParseValue, EntryMembers, Codes;
    CharAt(s, i, '{', EntryMembers(e) + "}");
    TextSplit(s, i + 1, EntryMembers(e), "}");
    CharAt(s, i + 1 + |EntryMembers(e)|, '}', "");
    EntryMembersRead(s, i + 1, e);
    var comma := CommaAt(i + 1, e);
    MembersLast(s, comma + 1);
    MembersCons(s, i + 1);
    FirstQuote(s, i + 1);
    ObjectReads(s, i);
    assert [GenerationMember(e)] + [CountMember(e)] == [GenerationMember(e), CountMember(e)];
  }

  lemma FirstQuote(s: string, i: nat)
    requires i <= |s| && ParseMember(s, i).Read?
    ensures i < |s| && s[i] == '"' && !IsSpace(s[i])
  {
  }

  // ----- lists of entries -----

  lemma ItemsLast(s: string, i: nat)
    requires i <= |s|
    requires var r := ParseValue(s, i); r.Read? && r.end < |s| && s[r.end] == ']'
    ensures ParseItems(s, i) == Read([ParseValue(s, i).value], ParseValue(s, i).end + 1)
  {
    hide ParseValue;
    NoSpace(s, ParseValue(s, i).end);
  }

  lemma ItemsCons(s: string, i: nat)
    requires i <= |s|
    requires var r := ParseValue(s, i);
      r.Read? && r.end + 1 < |s| && s[r.end] == ',' && !IsSpace(s[r.end + 1]) && ParseItems(s, r.end + 1).Read?
    ensures var r := ParseValue(s, i); var rest := ParseItems(s, r.end + 1);
      ParseItems(s, i) == Read([r.value] + rest.value, rest.end)
  {
    hide ParseValue, SkipSpace;
    NoSpace(s, ParseValue(s, i).end);
    NoSpace(s, ParseValue(s, i).end + 1);
  }

  function EntryValues(entries: seq<Entry>): seq<Value> {
    if entries == [] then [] else [EntryValue(entries[0])] + EntryValues(entries[1..])
  }

  lemma {:induction false} EntryListReads(s: string, i: nat, entries: seq<Entry>)
    requires entries != [] && AllValid(entries) && TextAt(s, i, EntryList(entries) + "]")
    ensures ParseItems(s, i) == Read(EntryValues(entries), i + |EntryList(entries)| + 1)
    ensures s[i] == '{'
    decreases |entries|
  {
    hide ParseItems, ParseValue, EntryText, EntryValue, TextAt;
    var e := entries[0];
    assert ValidEntry(e);
    var after := i + |EntryText(e)|;
    if |entries| == 1 {
      TextSplit(s, i, EntryText(e), "]");
      CharAt(s, after, ']', "");
      EntryReads(s, i, e);
      ItemsLast(s, i);
      EntryBrace(s, i, e);
      assert EntryValues(entries) == [EntryValue(e)] + EntryValues([]) == [EntryValue(e)];
    } else {
      var rest := EntryList(entries[1..]) + "]";
      assert EntryList(entries) + "]" == EntryText(e) + ("," + rest);
      TextSplit(s, i, EntryText(e), "," + rest);
      CharAt(s, after, ',', rest);
      EntryListReads(s, after + 1, entries[1..]);
      EntryReads(s, i, e);
      TextBounds(s, after + 1, rest);
      ItemsCons(s, i);
      EntryBrace(s, i, e);
    }
  }

  lemma TextBounds(s: string, i: nat, t: string)
    requires TextAt(s, i, t)
    ensures i + |t| <= |s|
  {
  }

  lemma EntryBrace(s: string, i: nat, e: Entry)
    requires TextAt(s, i, EntryText(e))
    ensures i < |s| && s[i] == '{'
  {
    hide EntryMembers;
    CharAt(s, i, '{', EntryMembers(e) + "}");
  }

  lemma ListReads(s: string, i: nat, entries: seq<Entry>)
    requires AllValid(entries) && TextAt(s, i, ListText(entries))
    ensures ParseValue(s, i) == Read(Array(EntryValues(entries)), i + |ListText(entries)|)
    ensures s[i] == '['
  {
    hide ParseItems, EntryList, EntryValue, ParseScalar, ParseObject;
    if entries == [] {
      CharAt(s, i, '[', "]");
      CharAt(s, i + 1, ']', "");
    } else {
      CharAt(s, i, '[', EntryList(entries) + "]");
      EntryListReads(s, i + 1, entries);
      NoSpace(s, i + 1);
    }
  }

  lemma ListMemberReads(s: string, i: nat, entries: seq<Entry>)
    requires AllValid(entries) && TextAt(s, i, Quoted(CLEANUP) + (":" + ListText(entries)))
    requires var end := i + 10 + |ListText(entries)|; end < |s| && s[end] == '}'
    ensures s[i] == '"'
    ensures ParseMember(s, i)
      == Read(Member(Codes(CLEANUP), Array(EntryValues(entries))), i + 10 + |ListText(entries)|)
  {
    hide ParseMember, ParseValue, EntryList, EntryValues, Codes;
    TextSplit(s, i, Quoted(CLEANUP), ":" + ListText(entries));
    CharAt(s, i + 9, ':', ListText(entries));
    ListReads(s, i + 10, entries);
    MemberReads(s, i, CLEANUP, ListText(entries));
    FirstQuote(s, i);
  }

  // ----- documents -----

  /** A text that is one object and nothing else. */
  lemma ObjectText(s: string)
    requires |s| >= 2 && s[0] == '{' && s[1] == '"' && ParseMembers(s, 1).Read? && ParseMembers(s, 1).end == |s|
    ensures ParseText(s) == Some(Object(ParseMembers(s, 1).value))
    ensures ParseObject(s, 0).Read? && ParseObject(s, 0).end == |s|
  {
    hide ParseMembers, ParseValue;
    NoSpace(s, 0);
    ObjectReads(s, 0);
  }

  lemma JournalReads(entries: seq<Entry>)
    requires AllValid(entries)
    ensures ParseText(JournalText(entries)) == Some(Object([Member(Codes(CLEANUP), Array(EntryValues(entries)))]))
  {
    hide ParseMembers, ParseText, EntryList, EntryValues, Codes, ListText;
    var s := JournalText(entries);
    var list := ListText(entries);
    var member := Quoted(CLEANUP) + (":" + list);
    assert s == "{" + (member + "}");
    assert TextAt(s, 0, s);
    CharAt(s, 0, '{', member + "}");
    TextSplit(s, 1, member, "}");
    CharAt(s, 1 + |member|, '}', "");
    ListMemberReads(s, 1, entries);
    MembersLast(s, 1);
    ObjectText(s);
  }

  lemma DistinctNames()
    ensures Codes(GENERATION) != Codes(COUNT) && Codes(GENERATION) != Codes(CLEANUP) && Codes(COUNT) != Codes(CLEANUP)
  {
    assert |Codes(GENERATION)| == 10 && |Codes(COUNT)| == 5 && |Codes(CLEANUP)| == 7;
  }

  lemma GenerationBack(generation: string)
    requires ValidGeneration(generation)
    ensures GenerationOf(Str(Codes(generation))) == Some(generation)
  {
    var v := Str(Codes(generation));
    forall k | 0 <= k < 32 ensures HexUnit(v.text[k]) && HexChar(v.text[k]) == generation[k] {
      assert generation[k] in generation;
    }
    assert seq(32, k requires 0 <= k < 32 => HexChar(v.text[k])) == generation;
  }

  /** Whatever follows the two members of an entry, they give the entry back. */
  lemma EntryBack(e: Entry, rest: seq<Member>)
    requires ValidEntry(e)
    ensures EntryIn([GenerationMember(e), CountMember(e)] + rest) == Some(e)
  {
    hide Codes, GenerationOf;
    var members := [GenerationMember(e), CountMember(e)] + rest;
    DistinctNames();
    GenerationBack(e.generation);
    assert Lookup(members, Codes(GENERATION)) == Some(Str(Codes(e.generation)));
    assert members[1..][0] == CountMember(e);
    assert Lookup(members[1..], Codes(COUNT)) == Some(Int(e.count));
  }

  lemma EntryValueBack(e: Entry)
    requires ValidEntry(e)
    ensures EntryOf(EntryValue(e)) == Some(e) && Unambiguous(EntryValue(e))
  {
    hide Codes, EntryIn;
    DistinctNames();
    var members := [GenerationMember(e), CountMember(e)];
    assert members == members + [];
    EntryBack(e, []);
    assert Keys(members) == {Codes(GENERATION), Codes(COUNT)} by {
      assert members[0] in members && members[1] in members;
    }
  }

  lemma {:induction false} EntryValuesBack(entries: seq<Entry>)
    requires AllValid(entries)
    ensures EntriesOf(EntryValues(entries)) == Some(entries)
    ensures forall v :: v in EntryValues(entries) ==> Unambiguous(v)
  {
    hide EntryOf, EntryValue, Unambiguous;
    if entries != [] {
      EntryValueBack(entries[0]);
      EntryValuesBack(entries[1..]);
      assert EntryValues(entries)[1..] == EntryValues(entries[1..]);
      assert [entries[0]] + entries[1..] == entries;
    }
  }

  /** Every journal the protocol writes is read back to the same entries. */
  lemma JournalRoundTrip(entries: seq<Entry>)
    requires WellFormed(entries)
    ensures JournalIn(JournalText(entries)) == Some(entries)
  {
    hide ParseText, JournalText, EntriesOf, EntryValues, Codes;
    JournalReads(entries);
    EntryValuesBack(entries);
    assert Unambiguous(Array(EntryValues(entries)));
    SingleMember(Codes(CLEANUP), Array(EntryValues(entries)));
  }

  lemma SingleMember(key: Units, value: Value)
    requires Unambiguous(value)
    ensures var members := [Member(key, value)];
      Keys(members) == {key} && Lookup(members, key) == Some(value) && Unambiguous(Object(members))
  {
    var members := [Member(key, value)];
    assert members[0] in members;
    assert forall m :: m in members ==> m == members[0];
  }

  // ----- manifests -----

  function ManifestMembers(active: Entry, cleanup: seq<Entry>): seq<Member> {
    [GenerationMember(active), CountMember(active)]
    + if cleanup == [] then [] else [Member(Codes(CLEANUP), Array(EntryValues(cleanup)))]
  }

  lemma BareMembersRead(s: string, i: nat, active: Entry)
    requires ValidEntry(active) && TextAt(s, i, EntryMembers(active))
    requires var end := i + |EntryMembers(active)|; end < |s| && s[end] == '}'
    ensures ParseMembers(s, i) == Read(ManifestMembers(active, []), i + |EntryMembers(active)| + 1)
    ensures s[i] == '"'
  {
    hide ParseMember, ParseMembers, EntryMembers, GenerationMember, CountMember;
    EntryMembersRead(s, i, active);
    MembersLast(s, CommaAt(i, active) + 1);
    MembersCons(s, i);
    FirstQuote(s, i);
    assert [GenerationMember(active)] + [CountMember(active)] == ManifestMembers(active, []);
  }

  lemma ListedMembersRead(s: string, i: nat, active: Entry, cleanup: seq<Entry>)
    requires ValidEntry(active) && AllValid(cleanup) && cleanup != []
    requires TextAt(s, i, EntryMembers(active))
    requires TextAt(s, i + |EntryMembers(active)|, CleanupMember(cleanup))
    requires var end := i + |EntryMembers(active)| + |CleanupMember(cleanup)|; end < |s| && s[end] == '}'
    ensures ParseMembers(s, i)
      == Read(ManifestMembers(active, cleanup), i + |EntryMembers(active)| + |CleanupMember(cleanup)| + 1)
    ensures s[i] == '"'
  {
    hide ParseMember, ParseMembers, ParseString, EntryMembers, GenerationMember, CountMember, CleanupMember, TextAt,
      ManifestMembers, AllValid;
    var q := i + |EntryMembers(active)|;
    var comma := CommaAt(i, active);
    CleanupMemberReads(s, q, cleanup);
    EntryMembersRead(s, i, active);
    MembersLast(s, q + 1);
    MembersCons(s, comma + 1);
    MembersCons(s, i);
    FirstQuote(s, i);
    MembersListed(active, cleanup);
  }

  lemma MembersListed(active: Entry, cleanup: seq<Entry>)
    requires cleanup != []
    ensures ManifestMembers(active, cleanup)
      == [GenerationMember(active)] + ([CountMember(active)] + [ListMember(cleanup)])
  {
    hide GenerationMember, CountMember, EntryValues, Codes;
  }

  function ListMember(cleanup: seq<Entry>): Member {
    Member(Codes(CLEANUP), Array(EntryValues(cleanup)))
  }

  /** A comma and the cleanup list behind the members of the active entry. */
  lemma CleanupMemberReads(s: string, i: nat, cleanup: seq<Entry>)
    requires AllValid(cleanup) && cleanup != [] && TextAt(s, i, CleanupMember(cleanup))
    requires var end := i + |CleanupMember(cleanup)|; end < |s| && s[end] == '}'
    ensures i + 1 < |s| && s[i] == ',' && s[i + 1] == '"'
    ensures ParseMember(s, i + 1) == Read(ListMember(cleanup), i + |CleanupMember(cleanup)|)
  {
    hide ParseMember, ListText, Codes, EntryValues, TextAt, AllValid;
    CharAt(s, i, ',', Quoted(CLEANUP) + (":" + ListText(cleanup)));
    ListMemberReads(s, i + 1, cleanup);
    FirstQuote(s, i + 1);
  }

  function BodyText(active: Entry, cleanup: seq<Entry>, rest: string): string {
    "{" + (EntryMembers(active) + (CleanupMember(cleanup) + ("}" + rest)))
  }

  /** The value of a manifest is read as one object with exactly its members. */
  lemma ManifestBodyReads(s: string, i: nat, active: Entry, cleanup: seq<Entry>, rest: string)
    requires ValidEntry(active) && AllValid(cleanup) && TextAt(s, i, BodyText(active, cleanup, rest))
    ensures var end := i + |EntryMembers(active)| + |CleanupMember(cleanup)| + 2;
      && ParseValue(s, i) == Read(Object(ManifestMembers(active, cleanup)), end)
      && TextAt(s, end, rest)
  {
    hide ParseMembers, ParseValue, EntryMembers, CleanupMember, ManifestMembers, TextAt;
    CharAt(s, i, '{', EntryMembers(active) + (CleanupMember(cleanup) + ("}" + rest)));
    TextSplit(s, i + 1, EntryMembers(active), CleanupMember(cleanup) + ("}" + rest));
    var q := i + 1 + |EntryMembers(active)|;
    TextSplit(s, q, CleanupMember(cleanup), "}" + rest);
    CharAt(s, q + |CleanupMember(cleanup)|, '}', rest);
    if cleanup == [] {
      assert CleanupMember(cleanup) == "" by { NoCleanupMember(cleanup); }
      BareMembersRead(s, i + 1, active);
    } else {
      ListedMembersRead(s, i + 1, active, cleanup);
    }
    ObjectReads(s, i);
  }

  lemma NoCleanupMember(cleanup: seq<Entry>)
    requires cleanup == []
    ensures CleanupMember(cleanup) == ""
  {
  }

  lemma KeyPlain()
    ensures AllPlain(MANIFEST_KEY)
  {
    forall k | 0 <= k < |MANIFEST_KEY| ensures Plain(MANIFEST_KEY[k]) {
      KeyCharacters(k);
    }
  }

  lemma CodesDrop(t: string, k: nat)
    requires k <= |t|
    ensures Codes(t[k..]) == if k < |t| then [t[k] as int] + Codes(t[k + 1..]) else []
  {
  }

  lemma {:induction false} KeyUnitsAreCodes(k: nat)
    requires k <= |MANIFEST_KEY|
    ensures KeyUnits(k) == Codes(MANIFEST_KEY[k..])
    decreases |MANIFEST_KEY| - k
  {
    hide Codes, KeyUnits;
    CodesDrop(MANIFEST_KEY, k);
    KeyUnitsStep(k);
    if k < |MANIFEST_KEY| {
      KeyUnitsAreCodes(k + 1);
    }
  }

  lemma KeyUnitsStep(k: nat)
    requires k <= |MANIFEST_KEY|
    ensures KeyUnits(k) == if k < |MANIFEST_KEY| then [MANIFEST_KEY[k] as int] + KeyUnits(k + 1) else []
  {
  }

  lemma ManifestLayout(active: Entry, cleanup: seq<Entry>)
    ensures var s := ManifestText(active, cleanup); var body := BodyText(active, cleanup, "}");
      && |s| == 24 + |EntryMembers(active)| + |CleanupMember(cleanup)| + 3
      && s[0] == '{' && s[1] == '"'
      && TextAt(s, 1, Quoted(MANIFEST_KEY) + (":" + body)) && TextAt(s, 24, body)
      && body != "" && body[0] == '{'
      && TextAt(s, 2, MANIFEST_KEY + "\"")
  {
    hide EntryMembers, CleanupMember;
    var s := ManifestText(active, cleanup);
    var body := BodyText(active, cleanup, "}");
    assert s == "{" + (Quoted(MANIFEST_KEY) + (":" + body));
    assert TextAt(s, 0, s);
    CharAt(s, 0, '{', Quoted(MANIFEST_KEY) + (":" + body));
    TextSplit(s, 1, Quoted(MANIFEST_KEY), ":" + body);
    assert Quoted(MANIFEST_KEY) == "\"" + (MANIFEST_KEY + "\"");
    CharAt(s, 1, '"', MANIFEST_KEY + "\"");
    CharAt(s, 23, ':', body);
  }

  lemma ManifestReads(active: Entry, cleanup: seq<Entry>)
    requires ValidEntry(active) && AllValid(cleanup)
    ensures var s := ManifestText(active, cleanup);
      && ParseText(s) == Some(Object([Member(KeyUnits(0), Object(ManifestMembers(active, cleanup)))]))
      && |s| >= 2 && s[0] == '{' && s[1] == '"' && ParseObject(s, 0).Read? && ParseObject(s, 0).end == |s|
      && TextAt(s, 2, MANIFEST_KEY + "\"")
  {
    hide ParseMember, ParseMembers, ParseValue, ParseText, ParseObject, Codes, KeyUnits, ManifestMembers, BodyText,
      ManifestText, TextAt, EntryMembers, CleanupMember, ValidEntry, AllValid, AllPlain;
    var s := ManifestText(active, cleanup);
    var body := BodyText(active, cleanup, "}");
    ManifestLayout(active, cleanup);
    ManifestBodyReads(s, 24, active, cleanup, "}");
    var end := ParseValue(s, 24).end;
    assert ['}'] + "" == "}";
    CharAt(s, end, '}', "");
    KeyPlain();
    KeyUnitsAreCodes(0);
    assert MANIFEST_KEY[0..] == MANIFEST_KEY;
    MemberReads(s, 1, MANIFEST_KEY, body);
    MembersLast(s, 1);
    ObjectText(s);
  }

  lemma BareMembersBack(active: Entry)
    requires ValidEntry(active)
    ensures var members := ManifestMembers(active, []);
      && EntryIn(members) == Some(active) && CleanupIn(members) == Some([])
      && Keys(members) == {Codes(GENERATION), Codes(COUNT)} && Unambiguous(Object(members))
  {
    hide Codes, EntryIn, EntriesOf;
    var members := ManifestMembers(active, []);
    DistinctNames();
    assert members == [GenerationMember(active), CountMember(active)] + [];
    EntryBack(active, []);
    assert members[0] in members && members[1] in members;
    assert members[1..][0] == members[1] && members[1..][1..] == [];
    assert Lookup(members[1..], Codes(CLEANUP)) == None;
  }

  lemma ListedMembersBack(active: Entry, cleanup: seq<Entry>)
    requires ValidEntry(active) && AllValid(cleanup) && cleanup != []
    ensures var members := ManifestMembers(active, cleanup);
      && EntryIn(members) == Some(active) && CleanupIn(members) == Some(cleanup)
      && Keys(members) == {Codes(GENERATION), Codes(COUNT), Codes(CLEANUP)} && Unambiguous(Object(members))
  {
    hide Codes, EntryIn, EntriesOf, EntryValues, AllValid;
    var members := ManifestMembers(active, cleanup);
    var last := ListMember(cleanup);
    DistinctNames();
    EntryValuesBack(cleanup);
    assert members == [GenerationMember(active), CountMember(active)] + [last];
    EntryBack(active, [last]);
    assert members[0] in members && members[1] in members && members[2] in members;
    assert members[1..][0] == members[1] && members[1..][1..] == [last];
    assert Lookup(members[1..], Codes(CLEANUP)) == Lookup([last], Codes(CLEANUP)) == Some(last.value);
    assert Unambiguous(last.value);
  }

  lemma ManifestMembersBack(active: Entry, cleanup: seq<Entry>)
    requires ValidEntry(active) && WellFormed(cleanup) && ConsistentCounts([active] + cleanup)
    ensures var v := Object(ManifestMembers(active, cleanup)); ManifestOf(v) == Some(Manifest(active, cleanup))
    ensures Unambiguous(Object(ManifestMembers(active, cleanup)))
  {
    hide Codes, EntryIn, CleanupIn, ManifestMembers, WellFormed, ConsistentCounts, Unambiguous;
    if cleanup == [] {
      BareMembersBack(active);
    } else {
      WellFormedValid(cleanup);
      ListedMembersBack(active, cleanup);
    }
  }

  lemma WellFormedValid(entries: seq<Entry>)
    requires WellFormed(entries)
    ensures AllValid(entries)
  {
  }

  /** Every manifest is read back to the same active entry and the same cleanup list. */
  lemma ManifestRoundTrip(active: Entry, cleanup: seq<Entry>)
    requires ValidEntry(active) && WellFormed(cleanup) && ConsistentCounts([active] + cleanup)
    ensures ManifestIn(ManifestText(active, cleanup)) == Some(Manifest(active, cleanup))
  {
    hide ParseText, ManifestText, ManifestMembers, ManifestOf, KeyUnits, WellFormed, ConsistentCounts;
    WellFormedValid(cleanup);
    ManifestReads(active, cleanup);
    ManifestMembersBack(active, cleanup);
    SingleMember(KeyUnits(0), Object(ManifestMembers(active, cleanup)));
  }

  lemma {:induction false} LookupHasKey(members: seq<Member>, key: Units)
    ensures Lookup(members, key).Some? ==> HasKey(members, key)
  {
    if members != [] {
      LookupHasKey(members[1..], key);
      ManifestKeyLaws.HasKeyStep(members[0], members[1..], key);
      assert [members[0]] + members[1..] == members;
    }
  }

  /** A text is a manifest only if it claims the reserved key. */
  lemma ManifestClaimsKey(text: string)
    requires ManifestIn(text).Some?
    ensures text != "" && Contains(text)
  {
    hide ManifestOf, KeyUnits, HasKey;
    LookupHasKey(StrictLoads(text).value.members, KeyUnits(0));
    ManifestKeyLaws.NoKey();
  }

  // ----- truncation -----

  lemma FirstKeyPosition(t: string)
    requires |t| >= 2 && t[0] == '{' && t[1] == '"'
    ensures ManifestKeyLaws.RootKeyPosition(t, 1)
  {
    hide ParseMember;
    NoSpace(t, 0);
    NoSpace(t, 1);
  }

  lemma PrefixSpellsOrEnds(s: string, k: nat, key: string)
    requires 2 <= k <= |s| && TextAt(s, 2, key + "\"")
    ensures ManifestKeyLaws.SpellsOrEnds(s[..k][2..], key)
  {
    var t := s[..k][2..];
    var claim := key + "\"";
    assert s[2..2 + |claim|] == claim;
    if k - 2 >= |claim| {
      assert t[..|claim|] == claim;
    } else {
      assert t == claim[..k - 2] == key[..k - 2];
    }
  }

  lemma TruncatedClaimsKey(s: string, k: nat)
    requires 3 <= k <= |s| && s[0] == '{' && s[1] == '"' && TextAt(s, 2, MANIFEST_KEY + "\"")
    ensures Contains(s[..k])
  {
    hide Contains, ManifestKeyLaws.Spells, ManifestKeyLaws.RootKeyPosition, ManifestKeyLaws.SpellsOrEnds, TextAt;
    var key := MANIFEST_KEY;
    assert key[0..] == key;
    ManifestKeyLaws.KeySpellsItself(0);
    FirstKeyPosition(s[..k]);
    PrefixSpellsOrEnds(s, k, key);
    ManifestKeyLaws.NothingHidesTheKey(s[..k], 1, key);
  }

  lemma ShortTextClaimsNothing(t: string)
    requires t == "" || t == "{" || t == "{\""
    ensures !Contains(t)
  {
    assert t != "" ==> SkipSpace(t, 0) == 0 && SkipPythonSpace(t, 0) == 0;
    assert ParseText(t).None? by {
      if |t| == 2 {
        assert SkipSpace(t, 1) == 1;
        assert ParseString(t, 1) == Fail;
        assert ParseMember(t, 1) == Fail;
        assert ParseMembers(t, 1) == Fail;
        assert ParseObject(t, 0) == Fail;
      } else if |t| == 1 {
        assert SkipSpace(t, 1) == 1;
        assert ParseMembers(t, 1) == Fail;
        assert ParseObject(t, 0) == Fail;
      }
    }
    if |t| == 2 {
      assert MatchFrom(t, 2, 0, true) == (false, 2);
      assert !Scan(t, 1, KeyNext);
    }
  }

  /**
   Truncation fails closed: a manifest cut short anywhere is refused as an invalid manifest
   exactly when at least three of its characters are left. Of `{` and `{"` nothing can be told.
   */
  lemma TruncationFailsClosed(active: Entry, cleanup: seq<Entry>, k: nat)
    requires ValidEntry(active) && AllValid(cleanup) && k < |ManifestText(active, cleanup)|
    ensures InvalidManifest(ManifestText(active, cleanup)[..k]) <==> k >= 3
  {
    hide ManifestText, ParseText, Contains, ParseObject;
    var s := ManifestText(active, cleanup);
    ManifestReads(active, cleanup);
    if k >= 3 {
      TruncatedClaimsKey(s, k);
      JsonDepth.ObjectPrefixIsNoText(s, k);
    } else {
      assert k == 1 ==> s[..k] == "{";
      assert k == 2 ==> s[..k] == "{\"";
      ShortTextClaimsNothing(s[..k]);
    }
  }

  // ----- sizes -----

  predicate Narrow(t: string) {
    forall c :: c in t ==> c as int < 0x1_0000
  }

  lemma {:induction false} NarrowBytes(t: string)
    requires Narrow(t)
    ensures Utf16Bytes(t) == 2 * |t|
  {
    if t != "" {
      assert t[0] in t;
      assert forall c :: c in t[1..] ==> c in t;
      NarrowBytes(t[1..]);
    }
  }

  lemma CountSize(n: nat)
    requires n < 10_000
    ensures |PrintNat(n)| <= 4
  {
    assert n / 10 / 10 / 10 < 10;
    assert |PrintNat(n / 10 / 10 / 10)| == 1;
    assert |PrintNat(n / 10 / 10)| <= 2;
    assert |PrintNat(n / 10)| <= 3;
  }

  lemma EntrySize(e: Entry)
    requires ValidEntry(e)
    ensures Narrow(EntryMembers(e)) && |EntryMembers(e)| <= 60
  {
    assert forall c :: c in GENERATION || c in COUNT ==> c as int < 0x1_0000;
    CountSize(e.count);
    assert forall c :: c in PrintNat(e.count) ==> IsDigit(c);
    assert forall c :: c in e.generation ==> LowerHex(c);
  }

  lemma {:induction false} ListSize(entries: seq<Entry>)
    requires AllValid(entries) && entries != []
    ensures Narrow(EntryList(entries)) && |EntryList(entries)| <= 63 * |entries| - 1
  {
    hide EntryMembers;
    EntrySize(entries[0]);
    if |entries| > 1 {
      ListSize(entries[1..]);
    }
  }

  lemma ListTextSize(entries: seq<Entry>)
    requires AllValid(entries) && |entries| <= MAX_CLEANUP_ENTRIES
    ensures Narrow(ListText(entries)) && |ListText(entries)| <= 1_009
  {
    hide EntryList;
    if entries != [] {
      ListSize(entries);
    }
  }

  lemma JournalSize(entries: seq<Entry>)
    requires AllValid(entries) && |entries| <= MAX_CLEANUP_ENTRIES
    ensures Narrow(JournalText(entries)) && |JournalText(entries)| <= 1_021
  {
    hide ListText;
    ListTextSize(entries);
    assert Narrow(CLEANUP);
  }

  lemma ManifestSize(active: Entry, cleanup: seq<Entry>)
    requires ValidEntry(active) && AllValid(cleanup) && |cleanup| <= MAX_CLEANUP_ENTRIES
    ensures Narrow(ManifestText(active, cleanup)) && |ManifestText(active, cleanup)| <= 1_107
  {
    hide EntryMembers, CleanupMember;
    CleanupSize(cleanup);
    EntrySize(active);
    NarrowNames();
  }

  lemma NarrowNames()
    ensures Narrow(CLEANUP) && Narrow(MANIFEST_KEY)
  {
  }

  lemma CleanupSize(cleanup: seq<Entry>)
    requires AllValid(cleanup) && |cleanup| <= MAX_CLEANUP_ENTRIES
    ensures Narrow(CleanupMember(cleanup)) && |CleanupMember(cleanup)| <= 1_020
  {
    hide ListText;
    ListTextSize(cleanup);
    NarrowNames();
  }

  /** Journals and manifests fit in one chunk, and so in one credential of 2560 bytes. */
  lemma DocumentsFit(active: Entry, cleanup: seq<Entry>)
    requires ValidEntry(active) && WellFormed(cleanup)
    ensures Utf16Bytes(JournalText(cleanup)) <= 2_400
    ensures Utf16Bytes(ManifestText(active, cleanup)) <= 2_400
  {
    hide JournalText, ManifestText, Narrow;
    WellFormedValid(cleanup);
    JournalSize(cleanup);
    ManifestSize(active, cleanup);
    NarrowBytes(JournalText(cleanup));
    NarrowBytes(ManifestText(active, cleanup));
  }
}
