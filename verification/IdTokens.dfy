/**
 The removal of identity tokens that a load performs: the cached object is read strictly, its root
 member with the tokens is dropped, and what is left is printed again.
 */
module IdTokens {
  import opened Basics
  import opened Json
  import opened CacheFormat
  import opened ManifestKey
  import CacheDocuments
  import CacheFormatLaws

  /**
   Strips identity tokens: the sanitized text and whether anything was removed, or nothing for a
   payload that is not understood.
   */
  type Sanitizer = string -> Option<(string, bool)>

  /** Loading this text removes identity tokens, so that the cache is stored again. */
  predicate Rewrites(sanitize: Sanitizer, text: string) {
    sanitize(text).Some? && sanitize(text).value.1
  }

  function Rewritten(sanitize: Sanitizer, text: string): string
    requires Rewrites(sanitize, text)
  {
    sanitize(text).value.0
  }

  const ID_TOKEN := "IdToken"

  /** The members with any other key, in their order. */
  function Without(members: seq<Member>, key: Units): (rest: seq<Member>)
    ensures forall m :: m in rest <==> m in members && m.key != key
    ensures DistinctKeys(members) ==> DistinctKeys(rest)
  {
    if members == [] then []
    else
      var rest := Without(members[1..], key);
      if members[0].key == key then rest else [members[0]] + rest
  }

  /** A removed member that is null does not count as a removal. */
  predicate Removes(members: seq<Member>) {
    match Lookup(members, Codes(ID_TOKEN))
    case None => false
    case Some(v) => v != Null
  }

  /** What the sanitizer makes of a text: any text of the remaining object will do. */
  predicate IsSanitized(text: string, r: Option<(string, bool)>) {
    match StrictLoads(text)
    case Some(Object(members)) =>
      && r.Some? && r.value.1 == Removes(members)
      && ParseText(r.value.0) == Some(Object(Without(members, Codes(ID_TOKEN))))
    case _ => r == None
  }

  ghost predicate RemovesIdTokens(sanitize: Sanitizer) {
    forall text :: IsSanitized(text, sanitize(text))
  }

  /**
   With such a sanitizer a load rewrites exactly the texts of objects with an `IdToken` member other
   than null, and what it writes reads back as the other members.
   */
  lemma {:induction false} RewritesExactly(sanitize: Sanitizer, text: string)
    requires RemovesIdTokens(sanitize)
    ensures Rewrites(sanitize, text)
      <==> && StrictLoads(text).Some? && StrictLoads(text).value.Object?
           && exists m :: m in StrictLoads(text).value.members && m.key == Codes("IdToken") && m.value != Null
    ensures Rewrites(sanitize, text) ==>
              && ParseText(Rewritten(sanitize, text)).Some? && ParseText(Rewritten(sanitize, text)).value.Object?
              && forall m :: m in ParseText(Rewritten(sanitize, text)).value.members
                             <==> m in StrictLoads(text).value.members && m.key != Codes("IdToken")
  {
    hide ParseText, Codes, Without, Lookup;
    assert IsSanitized(text, sanitize(text));
    if StrictLoads(text).Some? && StrictLoads(text).value.Object? {
      RemovesExactly(StrictLoads(text).value.members);
    }
  }

  lemma RemovesExactly(members: seq<Member>)
    requires DistinctKeys(members)
    ensures Removes(members) <==> exists m :: m in members && m.key == Codes(ID_TOKEN) && m.value != Null
  {
    hide Codes, Lookup, DistinctKeys;
    var found := Lookup(members, Codes(ID_TOKEN));
    if found.Some? {
      CacheDocuments.LookupExactly(members, Codes(ID_TOKEN), found.value);
      assert found.value != Null ==> Member(Codes(ID_TOKEN), found.value) in members;
    }
    forall m | m in members && m.key == Codes(ID_TOKEN) && m.value != Null ensures found == Some(m.value) {
      CacheDocuments.LookupExactly(members, Codes(ID_TOKEN), m.value);
    }
  }

  lemma KeyIsNotIdToken()
    ensures KeyUnits(0) != Codes(ID_TOKEN)
  {
    assert KeyUnits(0)[0] == 'w' as int && Codes(ID_TOKEN)[0] == 'I' as int;
  }

  lemma WithoutKeepsKey(members: seq<Member>, gone: Units, key: Units)
    requires gone != key
    ensures HasKey(Without(members, gone), key) <==> HasKey(members, key)
  {
    hide Without;
    if HasKey(members, key) {
      var m :| m in members && m.key == key;
      assert m in Without(members, gone);
    }
  }

  /** Whether the reserved key is claimed is the same before and after. */
  lemma SanitizingKeepsClaims(text: string, r: Option<(string, bool)>)
    requires IsSanitized(text, r) && r.Some?
    ensures Contains(r.value.0) <==> Contains(text)
  {
    hide ParseText, KeyUnits, Codes, Without, Removes, HasKey;
    KeyIsNotIdToken();
    WithoutKeepsKey(StrictLoads(text).value.members, Codes(ID_TOKEN), KeyUnits(0));
  }

  lemma WithoutIsClean(members: seq<Member>, key: Units)
    ensures Lookup(Without(members, key), key) == None
  {
    CacheFormatLaws.LookupHasKey(Without(members, key), key);
  }

  /** What has been sanitized is understood again, and nothing is left to remove. */
  lemma SanitizedStays(sanitize: Sanitizer, text: string)
    requires RemovesIdTokens(sanitize) && Rewrites(sanitize, text)
    ensures var clean := Rewritten(sanitize, text); sanitize(clean).Some? && !Rewrites(sanitize, clean)
  {
    hide ParseText, Codes, Without;
    assert IsSanitized(text, sanitize(text));
    var members := StrictLoads(text).value.members;
    var clean := Rewritten(sanitize, text);
    assert Unambiguous(Object(Without(members, Codes(ID_TOKEN))));
    WithoutIsClean(members, Codes(ID_TOKEN));
    assert IsSanitized(clean, sanitize(clean));
  }
}
