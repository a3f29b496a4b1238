/**
 The two documents of the chunked credential cache: the manifest in the primary credential, which
 names the active generation, and the cleanup journal, which names every generation whose chunks
 may exist. Both are printed compactly and read back by strict parsers that accept nothing else.
 */
module CacheFormat {
  import opened Basics
  import opened Json
  import opened ManifestKey

  const MAX_CHUNKS := 1024
  const MAX_CLEANUP_ENTRIES := 16

  /** A generation of chunks and how many of them it has. */
  datatype Entry = Entry(generation: string, count: nat)

  datatype Manifest = Manifest(active: Entry, cleanup: seq<Entry>)

  // ----- entries -----

  predicate LowerHex(c: char) {
    '0' <= c <= '9' || 'a' <= c <= 'f'
  }

  predicate ValidGeneration(generation: string) {
    |generation| == 32 && forall c :: c in generation ==> LowerHex(c)
  }

  predicate ValidCount(count: int) {
    1 <= count <= MAX_CHUNKS
  }

  predicate ValidEntry(e: Entry) {
    ValidGeneration(e.generation) && ValidCount(e.count)
  }

  predicate AllValid(entries: seq<Entry>) {
    forall e :: e in entries ==> ValidEntry(e)
  }

  predicate Distinct(entries: seq<Entry>) {
    forall j, k :: 0 <= j < k < |entries| ==> entries[j] != entries[k]
  }

  /** No generation is given two different counts. */
  predicate ConsistentCounts(entries: seq<Entry>) {
    forall d, e :: d in entries && e in entries && d.generation == e.generation ==> d.count == e.count
  }

  /** What a journal may list: the entries that its own strict parser gives back. */
  predicate WellFormed(entries: seq<Entry>) {
    && |entries| <= MAX_CLEANUP_ENTRIES
    && AllValid(entries)
    && Distinct(entries)
    && ConsistentCounts(entries)
  }

  method HaveConsistentCounts(entries: seq<Entry>) returns (consistent: bool)
    ensures consistent == ConsistentCounts(entries)
  {
    var counts: map<string, nat> := map[];
    for i := 0 to |entries|
      invariant forall e :: e in entries[..i] ==> e.generation in counts && counts[e.generation] == e.count
      invariant forall g :: g in counts ==> Entry(g, counts[g]) in entries[..i]
    {
      var e := entries[i];
      assert e in entries;
      if e.generation in counts {
        var first := Entry(e.generation, counts[e.generation]);
        assert first in entries;
        if first.count != e.count {
          return false;
        }
      } else {
        counts := counts[e.generation := e.count];
      }
      assert entries[..i + 1] == entries[..i] + [e];
    }
    assert entries[..|entries|] == entries;
    return true;
  }

  // ----- reading -----

  function Codes(s: string): (units: Units)
    ensures |units| == |s| && forall k :: 0 <= k < |s| ==> units[k] == s[k] as int
  {
    seq(|s|, k requires 0 <= k < |s| => s[k] as int)
  }

  predicate HexUnit(u: int) {
    '0' as int <= u <= '9' as int || 'a' as int <= u <= 'f' as int
  }

  function HexChar(u: int): (c: char)
    requires HexUnit(u)
    ensures LowerHex(c)
  {
    u as char
  }

  function GenerationOf(v: Value): (r: Option<string>)
    ensures r.Some? ==> ValidGeneration(r.value)
  {
    if v.Str? && |v.text| == 32 && forall k :: 0 <= k < 32 ==> HexUnit(v.text[k]) then
      Some(seq(32, k requires 0 <= k < 32 => HexChar(v.text[k])))
    else None
  }

  function CountOf(v: Value): (r: Option<nat>)
    ensures r.Some? ==> ValidCount(r.value)
  {
    if v.Int? && ValidCount(v.value) then Some(v.value) else None
  }

  function Keys(members: seq<Member>): set<Units> {
    set m | m in members :: m.key
  }

  function Lookup(members: seq<Member>, key: Units): Option<Value> {
    if members == [] then None
    else if members[0].key == key then Some(members[0].value)
    else Lookup(members[1..], key)
  }

  const GENERATION := "generation"
  const COUNT := "count"
  const CLEANUP := "cleanup"

  /** The entry that an object's generation and count give, if both are valid. */
  function EntryIn(members: seq<Member>): (r: Option<Entry>)
    ensures r.Some? ==> ValidEntry(r.value)
  {
    match (Lookup(members, Codes(GENERATION)), Lookup(members, Codes(COUNT)))
    case (Some(g), Some(n)) =>
      (match (GenerationOf(g), CountOf(n))
       case (Some(generation), Some(count)) => Some(Entry(generation, count))
       case _ => None)
    case _ => None
  }

  function EntryOf(v: Value): Option<Entry> {
    if v.Object? && Keys(v.members) == {Codes(GENERATION), Codes(COUNT)} then EntryIn(v.members) else None
  }

  function EntriesOf(items: seq<Value>): Option<seq<Entry>> {
    if items == [] then Some([])
    else
      match (EntryOf(items[0]), EntriesOf(items[1..]))
      case (Some(e), Some(rest)) => Some([e] + rest)
      case _ => None
  }

  /** The journal a loaded value denotes; anything that is not exactly a journal is refused. */
  function JournalOf(v: Value): (r: Option<seq<Entry>>)
    ensures r.Some? ==> WellFormed(r.value)
  {
    if v.Object? && Keys(v.members) == {Codes(CLEANUP)} then
      match Lookup(v.members, Codes(CLEANUP))
      case Some(Array(items)) =>
        (match EntriesOf(items)
         case Some(entries) => if WellFormed(entries) then Some(entries) else None
         case None => None)
      case _ => None
    else None
  }

  function JournalIn(text: string): (r: Option<seq<Entry>>)
    ensures r.Some? ==> WellFormed(r.value)
  {
    match StrictLoads(text)
    case Some(v) => JournalOf(v)
    case None => None
  }

  /** The cleanup list of a manifest value; a manifest without one has an empty list. */
  function CleanupIn(members: seq<Member>): Option<seq<Entry>> {
    match Lookup(members, Codes(CLEANUP))
    case None => Some([])
    case Some(Array(items)) => EntriesOf(items)
    case _ => None
  }

  /** What a manifest may say: its entries are valid and never disagree on a count. */
  predicate Sound(m: Manifest) {
    ValidEntry(m.active) && WellFormed(m.cleanup) && ConsistentCounts([m.active] + m.cleanup)
  }

  function ManifestOf(v: Value): (r: Option<Manifest>)
    ensures r.Some? ==> Sound(r.value)
  {
    if v.Object? && (Keys(v.members) == {Codes(GENERATION), Codes(COUNT)}
                     || Keys(v.members) == {Codes(GENERATION), Codes(COUNT), Codes(CLEANUP)})
    then
      match (EntryIn(v.members), CleanupIn(v.members))
      case (Some(active), Some(cleanup)) =>
        if WellFormed(cleanup) && ConsistentCounts([active] + cleanup) then Some(Manifest(active, cleanup)) else None
      case _ => None
    else None
  }

  function ManifestIn(text: string): (r: Option<Manifest>)
    ensures r.Some? ==> Sound(r.value)
  {
    match StrictLoads(text)
    case Some(Object(members)) =>
      if Keys(members) == {KeyUnits(0)} then
        match Lookup(members, KeyUnits(0))
        case Some(v) => ManifestOf(v)
        case None => None
      else None
    case _ => None
  }

  /** A primary credential that claims the manifest format without being a manifest. */
  predicate InvalidManifest(text: string) {
    text != "" && Contains(text) && ManifestIn(text).None?
  }

  // ----- printing -----

  function Digit(d: nat): (c: char)
    requires d < 10
    ensures IsDigit(c) && c as int == '0' as int + d
  {
    ('0' as int + d) as char
  }

  function PrintNat(n: nat): (t: string)
    ensures |t| >= 1 && forall k :: 0 <= k < |t| ==> IsDigit(t[k])
    ensures n > 0 ==> t[0] != '0'
  {
    if n < 10 then [Digit(n)] else PrintNat(n / 10) + [Digit(n % 10)]
  }

  function Quoted(s: string): string {
    "\"" + s + "\""
  }

  /** The members that name a generation and its count, without the braces. */
  function EntryMembers(e: Entry): string {
    Quoted(GENERATION) + (":" + (Quoted(e.generation) + ("," + (Quoted(COUNT) + (":" + PrintNat(e.count))))))
  }

  function EntryText(e: Entry): string {
    "{" + (EntryMembers(e) + "}")
  }

  function EntryList(entries: seq<Entry>): string
    requires entries != []
  {
    if |entries| == 1 then EntryText(entries[0]) else EntryText(entries[0]) + ("," + EntryList(entries[1..]))
  }

  function ListText(entries: seq<Entry>): string {
    "[" + ((if entries == [] then "" else EntryList(entries)) + "]")
  }

  function JournalText(entries: seq<Entry>): string {
    "{" + (Quoted(CLEANUP) + (":" + (ListText(entries) + "}")))
  }

  function CleanupMember(cleanup: seq<Entry>): string {
    if cleanup == [] then "" else "," + (Quoted(CLEANUP) + (":" + ListText(cleanup)))
  }

  function ManifestText(active: Entry, cleanup: seq<Entry>): string {
    "{" + (Quoted(MANIFEST_KEY) + (":" + ("{" + (EntryMembers(active) + (CleanupMember(cleanup) + ("}" + "}"))))))
  }
}
