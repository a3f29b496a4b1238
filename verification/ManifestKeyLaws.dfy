/**
 What the recogniser promises: its string lexer agrees with the JSON grammar on every complete
 string, the whole recogniser agrees with the root object of every JSON text, and no damage
 behind a key position can hide the reserved key from it.
 */
module ManifestKeyLaws {
  import opened Basics
  import opened Json
  import opened ManifestKey

  // ----- escapes -----

  lemma LowerHexDigit(c: char)
    requires IsHex(c)
    ensures LowerChar(c) == HexDigit(HexValue(c))
  {
  }

  lemma FourHexDigits(a: int, b: int, c: int, d: int)
    requires 0 <= a < 16 && 0 <= b < 16 && 0 <= c < 16 && 0 <= d < 16
    ensures FourHex(((a * 16 + b) * 16 + c) * 16 + d) == [HexDigit(a), HexDigit(b), HexDigit(c), HexDigit(d)]
  {
    hide HexDigit, HexValue;
    var high := a * 16 + b;
    var code := (high * 16 + c) * 16 + d;
    HighAndLow(high * 16 + c, d);
    HighAndLow(high, c);
    HighAndLow(a, b);
    Quotients(code);
  }

  lemma HighAndLow(high: int, low: int)
    requires 0 <= high && 0 <= low < 16
    ensures (high * 16 + low) / 0x10 == high && (high * 16 + low) % 0x10 == low
  {
  }

  lemma Quotients(u: int)
    requires 0 <= u
    ensures u / 0x100 == u / 0x10 / 0x10 && u / 0x1000 == u / 0x10 / 0x10 / 0x10
  {
    assert u / 0x1000 == u / 0x100 / 0x10;
  }

  lemma Recompose(u: int)
    requires 0 <= u < 0x1_0000
    ensures ((u / 0x1000 * 16 + u / 0x100 % 0x10) * 16 + u / 0x10 % 0x10) * 16 + u % 0x10 == u
  {
    Quotients(u);
  }

  lemma FourHexReads(u: int)
    requires 0 <= u < 0x1_0000
    ensures Hex4At(FourHex(u), 0) && Hex4(FourHex(u), 0) == u
  {
    hide HexDigit, HexValue;
    Recompose(u);
  }

  /** Four hexadecimal digits of either case lower to the printed form of the unit they denote. */
  lemma LowerOfHex4(s: string, i: nat)
    requires Hex4At(s, i)
    ensures AllHex(s[i..i + 4]) && Lower(s[i..i + 4]) == FourHex(Hex4(s, i))
  {
    hide FourHex, HexDigit;
    var t := s[i..i + 4];
    assert t[0] == s[i] && t[1] == s[i + 1] && t[2] == s[i + 2] && t[3] == s[i + 3];
    LowerHexDigit(s[i]);
    LowerHexDigit(s[i + 1]);
    LowerHexDigit(s[i + 2]);
    LowerHexDigit(s[i + 3]);
    FourHexDigits(HexValue(s[i]), HexValue(s[i + 1]), HexValue(s[i + 2]), HexValue(s[i + 3]));
    assert Lower(t) == [LowerChar(t[0]), LowerChar(t[1]), LowerChar(t[2]), LowerChar(t[3])];
  }

  lemma EscapeMatches(s: string, i: nat, target: nat)
    requires Hex4At(s, i) && target <= |MANIFEST_KEY|
    ensures EscapesTarget(s[i..i + 4], target)
      <==> target < |MANIFEST_KEY| && Hex4(s, i) == MANIFEST_KEY[target] as int
  {
    hide FourHex, Hex4, AllHex;
    LowerOfHex4(s, i);
    if target < |MANIFEST_KEY| {
      KeyCharacters(target);
      if FourHex(Hex4(s, i)) == FourHex(MANIFEST_KEY[target] as int) {
        FourHexReads(Hex4(s, i));
        FourHexReads(MANIFEST_KEY[target] as int);
      }
    }
  }

  // ----- the string lexer on complete strings -----

  lemma PrependSpelled(u: Units, rest: Units, target: nat)
    requires target <= |MANIFEST_KEY| && 1 <= |u| <= 2
    requires |u| == 2 ==> u[0] >= 0xD800
    ensures u + rest == KeyUnits(target)
      <==> target < |MANIFEST_KEY| && u == [MANIFEST_KEY[target] as int] && rest == KeyUnits(target + 1)
  {
    if target < |MANIFEST_KEY| {
      KeyCharacters(target);
      if u + rest == KeyUnits(target) {
        assert u[0] == (u + rest)[0] == MANIFEST_KEY[target] as int;
        assert (u + rest)[1..] == KeyUnits(target + 1);
      }
    } else {
      assert |u + rest| > 0;
    }
  }

  /** The unit that the lexer is due to see matches the next character of the key. */
  predicate Hits(unit: int, target: nat, matches: bool) {
    matches && target < |MANIFEST_KEY| && unit == MANIFEST_KEY[target] as int
  }

  lemma EscapeStep(s: string, i: nat, target: nat, matches: bool)
    requires i + 1 < |s| && s[i] == '\\' && s[i + 1] == 'u' && Hex4At(s, i + 2) && target <= |MANIFEST_KEY|
    ensures MatchFrom(s, i, target, matches)
      == if Hits(Hex4(s, i + 2), target, matches) then MatchFrom(s, i + 6, target + 1, true)
         else MatchFrom(s, i + 6, target, false)
  {
    hide EscapesTarget, MatchesDigits, Hex4;
    EscapeMatches(s, i + 2, target);
  }

  lemma SimpleStep(s: string, i: nat, target: nat, matches: bool)
    requires i + 1 < |s| && s[i] == '\\' && SimpleEscape(s[i + 1]).Some? && target <= |MANIFEST_KEY|
    ensures MatchFrom(s, i, target, matches) == MatchFrom(s, i + 2, target, false)
    ensures !Hits(SimpleEscape(s[i + 1]).value, target, matches)
  {
    hide EscapesTarget, MatchesDigits;
    if target < |MANIFEST_KEY| {
      KeyCharacters(target);
    }
  }

  lemma LiteralStep(s: string, i: nat, target: nat, matches: bool)
    requires i < |s| && s[i] != '\\' && s[i] != '"' && target <= |MANIFEST_KEY|
    ensures MatchFrom(s, i, target, matches)
      == if Hits(s[i] as int, target, matches) then MatchFrom(s, i + 1, target + 1, true)
         else MatchFrom(s, i + 1, target, false)
    ensures Hits(s[i] as int, target, matches) ==> CharUnits(s[i]) == [s[i] as int]
    ensures matches && target < |MANIFEST_KEY| && CharUnits(s[i]) == [MANIFEST_KEY[target] as int] ==>
              Hits(s[i] as int, target, matches)
  {
    hide EscapesTarget, MatchesDigits;
    if target < |MANIFEST_KEY| {
      KeyCharacters(target);
    }
  }

  /**
   On a complete string the lexer stops just past the closing quote and matches exactly when
   the string decodes to what is left of the key.
   */
  lemma {:induction false} StringExact(s: string, i: nat, target: nat, matches: bool)
    requires i <= |s| && StringBody(s, i).Read? && target <= |MANIFEST_KEY|
    ensures MatchFrom(s, i, target, matches)
      == (matches && StringBody(s, i).value == KeyUnits(target), StringBody(s, i).end)
    decreases |s| - i
  {
    if s[i] == '"' {
      QuoteStep(s, i, target, matches);
    } else if s[i] == '\\' && s[i + 1] == 'u' {
      hide MatchFrom, KeyUnits, Hex4;
      var unit := Hex4(s, i + 2);
      EscapeStep(s, i, target, matches);
      PrependSpelled([unit], StringBody(s, i + 6).value, target);
      var hit := Hits(unit, target, matches);
      StringExact(s, i + 6, if hit then target + 1 else target, hit);
    } else if s[i] == '\\' {
      hide MatchFrom, KeyUnits;
      SimpleStep(s, i, target, matches);
      PrependSpelled([SimpleEscape(s[i + 1]).value], StringBody(s, i + 2).value, target);
      StringExact(s, i + 2, target, false);
    } else {
      hide MatchFrom, KeyUnits;
      LiteralStep(s, i, target, matches);
      PrependSpelled(CharUnits(s[i]), StringBody(s, i + 1).value, target);
      var hit := Hits(s[i] as int, target, matches);
      StringExact(s, i + 1, if hit then target + 1 else target, hit);
    }
  }

  lemma QuoteStep(s: string, i: nat, target: nat, matches: bool)
    requires i < |s| && s[i] == '"' && target <= |MANIFEST_KEY|
    ensures MatchFrom(s, i, target, matches) == (matches && KeyUnits(target) == [], i + 1)
  {
  }

  // ----- spellings of the reserved key -----

  /** One key character, literal or escaped with hexadecimal digits of either case. */
  predicate IsPiece(piece: string, c: char) {
    || piece == [c]
    || (|piece| == 6 && piece[0] == '\\' && piece[1] == 'u' && Hex4At(piece, 2) && Hex4(piece, 2) == c as int)
  }

  /** The text spells the reserved key from its character `k` on. */
  predicate Spells(u: string, k: nat)
    requires k <= |MANIFEST_KEY|
    decreases |MANIFEST_KEY| - k
  {
    if k == |MANIFEST_KEY| then u == ""
    else
      || (|u| >= 1 && IsPiece(u[..1], MANIFEST_KEY[k]) && Spells(u[1..], k + 1))
      || (|u| >= 6 && IsPiece(u[..6], MANIFEST_KEY[k]) && Spells(u[6..], k + 1))
  }

  lemma {:induction false} KeySpellsItself(k: nat)
    requires k <= |MANIFEST_KEY|
    ensures Spells(MANIFEST_KEY[k..], k)
    decreases |MANIFEST_KEY| - k
  {
    if k < |MANIFEST_KEY| {
      KeySpellsItself(k + 1);
      var u := MANIFEST_KEY[k..];
      assert u[1..] == MANIFEST_KEY[k + 1..];
      assert u[..1] == [MANIFEST_KEY[k]];
    }
  }

  /** The text goes on with the spelling and a closing quote, or ends inside the spelling. */
  predicate SpellsOrEnds(tail: string, u: string) {
    u + "\"" <= tail || tail <= u
  }

  /** The string lexer matches every spelling, and every spelling that the end of the text cuts short. */
  lemma {:induction false} SpellingMatches(s: string, i: nat, u: string, k: nat)
    requires i <= |s| && k <= |MANIFEST_KEY| && Spells(u, k) && SpellsOrEnds(s[i..], u)
    requires k > 0 || i < |s|
    ensures MatchFrom(s, i, k, true).0
    decreases |MANIFEST_KEY| - k
  {
    if i == |s| {
    } else if k == |MANIFEST_KEY| {
      assert s[i..][0] == '"';
    } else {
      KeyCharacters(k);
      var c := MANIFEST_KEY[k];
      if |u| >= 1 && IsPiece(u[..1], c) && Spells(u[1..], k + 1) {
        LiteralPiece(s, i, u, k);
        SpellingMatches(s, i + 1, u[1..], k + 1);
      } else {
        EscapedPiece(s, i, u, k);
        if i + 6 <= |s| {
          SpellingMatches(s, i + 6, u[6..], k + 1);
        }
      }
    }
  }

  lemma TailDrop(s: string, i: nat, u: string, n: nat)
    requires i + n <= |s| && n <= |u| && SpellsOrEnds(s[i..], u)
    ensures SpellsOrEnds(s[i + n..], u[n..])
    ensures s[i..i + n] == u[..n]
  {
    var tail := s[i..];
    assert s[i + n..] == tail[n..];
    assert s[i..i + n] == tail[..n];
    if u + "\"" <= tail {
      assert u[n..] + "\"" == (u + "\"")[n..];
      assert tail[..n] == (u + "\"")[..n] == u[..n];
    } else {
      assert tail[..n] == u[..n];
    }
  }

  lemma LiteralPiece(s: string, i: nat, u: string, k: nat)
    requires i < |s| && k < |MANIFEST_KEY| && |u| >= 1 && IsPiece(u[..1], MANIFEST_KEY[k])
    requires SpellsOrEnds(s[i..], u)
    ensures SpellsOrEnds(s[i + 1..], u[1..])
    ensures MatchFrom(s, i, k, true) == MatchFrom(s, i + 1, k + 1, true)
  {
    KeyCharacters(k);
    TailDrop(s, i, u, 1);
    assert s[i] == s[i..i + 1][0] == u[0] == MANIFEST_KEY[k];
  }

  lemma EscapedPiece(s: string, i: nat, u: string, k: nat)
    requires i < |s| && k < |MANIFEST_KEY| && |u| >= 6 && IsPiece(u[..6], MANIFEST_KEY[k])
    requires SpellsOrEnds(s[i..], u)
    ensures i + 6 <= |s| ==>
              SpellsOrEnds(s[i + 6..], u[6..]) && MatchFrom(s, i, k, true) == MatchFrom(s, i + 6, k + 1, true)
    ensures i + 6 > |s| ==> MatchFrom(s, i, k, true).0
  {
    hide FourHex, Hex4, EscapesTarget;
    var piece := u[..6];
    var c := MANIFEST_KEY[k];
    LowerOfHex4(piece, 2);
    if i + 6 <= |s| {
      TailDrop(s, i, u, 6);
      assert s[i..i + 6] == piece;
      assert s[i] == piece[0] && s[i + 1] == piece[1];
      assert s[i + 2..i + 6] == piece[2..6];
      assert EscapesTarget(s[i + 2..i + 6], k) by { EscapeMatches(piece, 2, k); }
    } else {
      var n := |s| - i;
      TailDrop(s, i, u, n);
      assert s[i..i + n] == u[..n] == piece[..n];
      assert s[i] == piece[0];
      if n >= 2 {
        assert s[i + 1] == piece[1];
        var digits := s[i + 2..];
        assert digits == piece[2..6][..n - 2];
        assert Lower(digits) == Lower(piece[2..6])[..n - 2];
      }
    }
  }

  // ----- root scalars -----

  lemma {:induction false} DigitsSlice(s: string, i: nat, e: nat, k: nat)
    requires i <= k <= e <= |s| && DigitsEnd(s, k) <= e
    ensures DigitsEnd(s[i..e], k - i) == DigitsEnd(s, k) - i
    decreases e - k
  {
    if k < e && IsDigit(s[k]) {
      DigitsSlice(s, i, e, k + 1);
    }
  }

  /** A number read from a longer text is read the same from its own characters. */
  lemma NumberSlice(s: string, i: nat)
    requires i <= |s| && ParseNumber(s, i).Read?
    ensures var e := ParseNumber(s, i).end; ParseNumber(s[i..e], 0).Read? && ParseNumber(s[i..e], 0).end == e - i
  {
    hide IntegerEnd, FractionEnd, ExponentEnd, Decimal;
    var e := ParseNumber(s, i).end;
    var t := s[i..e];
    var start := if s[i] == '-' then i + 1 else i;
    var whole := IntegerEnd(s, start);
    var fraction := FractionEnd(s, whole);
    IntegerSlice(s, i, e, start);
    FractionSlice(s, i, e, whole);
    ExponentSlice(s, i, e, fraction);
  }

  lemma IntegerSlice(s: string, i: nat, e: nat, k: nat)
    requires i <= k <= e <= |s| && IntegerEnd(s, k) <= e
    ensures IntegerEnd(s[i..e], k - i) == IntegerEnd(s, k) - i
  {
    if k < |s| && s[k] != '0' {
      DigitsSlice(s, i, e, k);
    }
  }

  lemma FractionSlice(s: string, i: nat, e: nat, k: nat)
    requires i <= k <= e <= |s| && FractionEnd(s, k) <= e
    ensures FractionEnd(s[i..e], k - i) == FractionEnd(s, k) - i
  {
    if k + 1 < |s| && s[k] == '.' && IsDigit(s[k + 1]) {
      DigitsSlice(s, i, e, k + 1);
    }
  }

  lemma ExponentSlice(s: string, i: nat, e: nat, k: nat)
    requires i <= k <= e <= |s| && ExponentEnd(s, k) <= e
    ensures ExponentEnd(s[i..e], k - i) == ExponentEnd(s, k) - i
  {
    if k + 1 < |s| && (s[k] == 'e' || s[k] == 'E') {
      var digits := if s[k + 1] == '+' || s[k + 1] == '-' then k + 2 else k + 1;
      if digits < |s| && IsDigit(s[digits]) {
        assert DigitsEnd(s, digits) > digits;
        DigitsSlice(s, i, e, digits);
      }
    }
  }

  lemma {:induction false} ScalarEndAt(s: string, i: nat, e: nat)
    requires i <= e < |s| && EndsScalar(s[e])
    requires forall k :: i <= k < e ==> !EndsScalar(s[k])
    ensures ScalarEnd(s, i) == e
    decreases e - i
  {
    if i < e {
      ScalarEndAt(s, i + 1, e);
    }
  }

  lemma ScalarCharacters(s: string, i: nat)
    requires i <= |s| && ParseScalar(s, i).Read? && s[i] != '"'
    ensures forall k :: i <= k < ParseScalar(s, i).end ==>
              !EndsScalar(s[k]) && !Structural(s[k]) && !IsPythonSpace(s[k])
  {
    hide ParseNumber;
    if Literally(s, i, "null") {
      assert forall k :: i <= k < i + 4 ==> s[k] == s[i..i + 4][k - i];
    } else if Literally(s, i, "true") {
      assert forall k :: i <= k < i + 4 ==> s[k] == s[i..i + 4][k - i];
    } else if Literally(s, i, "false") {
      assert forall k :: i <= k < i + 5 ==> s[k] == s[i..i + 5][k - i];
    }
  }

  /** The characters of a literal name or a number are a text of their own. */
  lemma ScalarSlice(s: string, i: nat)
    requires i <= |s| && ParseScalar(s, i).Read? && s[i] != '"'
    ensures LoadsScalar(s[i..ParseScalar(s, i).end])
  {
    hide ParseNumber, ParseArray, ParseObject;
    var e := ParseScalar(s, i).end;
    var t := s[i..e];
    ScalarCharacters(s, i);
    assert t[0] == s[i];
    assert !IsSpace(t[0]) && !Structural(t[0]);
    assert SkipSpace(t, 0) == 0 && SkipSpace(t, |t|) == |t|;
    if Literally(s, i, "null") {
      assert t == "null" && t[0..4] == t;
    } else if Literally(s, i, "true") {
      assert t == "true" && t[0..4] == t;
    } else if Literally(s, i, "false") {
      assert t == "false" && t[0..5] == t;
    } else {
      NumberSlice(s, i);
      NoWord(t);
    }
    assert ParseScalar(t, 0).Read? && ParseScalar(t, 0).end == |t| && IsScalar(ParseScalar(t, 0).value);
  }

  lemma NoWord(t: string)
    requires |t| > 0 && (IsDigit(t[0]) || t[0] == '-')
    ensures !Literally(t, 0, "null") && !Literally(t, 0, "true") && !Literally(t, 0, "false")
  {
    if |t| >= 4 {
      assert t[0..4][0] == t[0];
    }
    if |t| >= 5 {
      assert t[0..5][0] == t[0];
    }
  }

  // ----- nested containers -----

  lemma {:induction false} NestedPlain(s: string, i: nat, j: nat, depth: nat)
    requires i <= j <= |s| && depth >= 2
    requires forall k :: i <= k < j ==> !Structural(s[k])
    ensures SkipNested(s, i, depth) == SkipNested(s, j, depth)
    decreases j - i
  {
    if i < j {
      assert !Structural(s[i]);
      NestedPlain(s, i + 1, j, depth);
    }
  }

  lemma NestedString(s: string, i: nat, depth: nat)
    requires i <= |s| && ParseString(s, i).Read? && depth >= 2
    ensures SkipNested(s, i, depth) == SkipNested(s, ParseString(s, i).end, depth)
  {
    hide StringBody, MatchFrom;
    StringExact(s, i + 1, 0, true);
  }

  /** A value inside a container leaves the lexer's depth as it was. */
  lemma {:induction false} NestedValue(s: string, i: nat, depth: nat)
    requires i <= |s| && ParseValue(s, i).Read? && depth >= 2
    ensures SkipNested(s, i, depth) == SkipNested(s, ParseValue(s, i).end, depth)
    decreases |s| - i, 1
  {
    hide ParseScalar, ParseArray, ParseObject;
    if s[i] == '[' || s[i] == '{' {
      NestedContainer(s, i, depth + 1);
      assert SkipNested(s, i, depth) == SkipNested(s, i + 1, depth + 1);
    } else {
      NestedScalar(s, i, depth);
    }
  }

  lemma NestedScalar(s: string, i: nat, depth: nat)
    requires i <= |s| && ParseScalar(s, i).Read? && depth >= 2
    ensures SkipNested(s, i, depth) == SkipNested(s, ParseScalar(s, i).end, depth)
  {
    hide ParseNumber;
    if s[i] == '"' {
      NestedString(s, i, depth);
    } else {
      ScalarCharacters(s, i);
      NestedPlain(s, i, ParseScalar(s, i).end, depth);
    }
  }

  /** Just inside a container the lexer finds its way to just past the closing bracket. */
  lemma {:induction false} NestedContainer(s: string, i: nat, depth: nat)
    requires i < |s| && (s[i] == '[' || s[i] == '{') && ParseValue(s, i).Read? && depth >= 2
    ensures SkipNested(s, i + 1, depth) == SkipNested(s, ParseValue(s, i).end, depth - 1)
    decreases |s| - i, 0
  {
    hide ParseItems, ParseMembers;
    var first := SkipSpace(s, i + 1);
    NestedPlain(s, i + 1, first, depth);
    if s[i] == '[' && s[first] != ']' {
      NestedItems(s, first, depth);
    } else if s[i] == '{' && s[first] != '}' {
      NestedMembers(s, first, depth);
    }
  }

  lemma {:induction false} NestedItems(s: string, i: nat, depth: nat)
    requires i <= |s| && ParseItems(s, i).Read? && depth >= 2
    ensures SkipNested(s, i, depth) == SkipNested(s, ParseItems(s, i).end, depth - 1)
    decreases |s| - i, 2
  {
    hide ParseItems, ParseValue;
    ItemsShape(s, i);
    NestedValue(s, i, depth);
    var end := ParseValue(s, i).end;
    var next := SkipSpace(s, end);
    NestedPlain(s, end, next, depth);
    if s[next] == ',' {
      var after := SkipSpace(s, next + 1);
      NestedPlain(s, next, after, depth);
      NestedItems(s, after, depth);
    }
  }

  lemma {:induction false} NestedMembers(s: string, i: nat, depth: nat)
    requires i <= |s| && ParseMembers(s, i).Read? && depth >= 2
    ensures SkipNested(s, i, depth) == SkipNested(s, ParseMembers(s, i).end, depth - 1)
    decreases |s| - i, 3
  {
    hide ParseMembers, ParseMember;
    MembersShape(s, i);
    NestedMember(s, i, depth);
    var next := ParseMember(s, i).end;
    if s[next] == ',' {
      var after := SkipSpace(s, next + 1);
      NestedPlain(s, next, after, depth);
      NestedMembers(s, after, depth);
    }
  }

  lemma {:induction false} NestedMember(s: string, i: nat, depth: nat)
    requires i <= |s| && ParseMember(s, i).Read? && depth >= 2
    ensures SkipNested(s, i, depth) == SkipNested(s, ParseMember(s, i).end, depth)
    decreases |s| - i, 2
  {
    hide ParseValue, ParseString;
    NestedString(s, i, depth);
    var end := ParseString(s, i).end;
    var start := SkipSpace(s, SkipSpace(s, end) + 1);
    NestedPlain(s, end, start, depth);
    NestedValue(s, start, depth);
    var last := ParseValue(s, start).end;
    NestedPlain(s, last, SkipSpace(s, last), depth);
  }

  // ----- the root object -----

  lemma {:induction false} ScanSpace(s: string, i: nat, state: RootState)
    requires i <= |s|
    ensures Scan(s, i, state) == Scan(s, SkipSpace(s, i), state)
    decreases |s| - i
  {
    hide SkipNested, MatchFrom, ScalarEnd, LoadsScalar;
    if i < |s| && IsSpace(s[i]) {
      ScanSpace(s, i + 1, state);
    }
  }

  lemma ScanString(s: string, i: nat, state: RootState)
    requires i <= |s| && ParseString(s, i).Read?
    ensures var r := ParseString(s, i);
      Scan(s, i, state) == ((state.KeyNext? && r.value == KeyUnits(0)) || Scan(s, r.end, AfterString(state)))
  {
    hide StringBody, MatchFrom, KeyUnits, SkipNested, ScalarEnd, LoadsScalar;
    StringExact(s, i + 1, 0, true);
  }

  /** A root value that a separator follows takes the lexer past it. */
  lemma ScanValue(s: string, i: nat)
    requires i <= |s| && ParseValue(s, i).Read?
    requires ParseValue(s, i).end < |s| && EndsScalar(s[ParseValue(s, i).end])
    ensures Scan(s, i, ValueNext) == Scan(s, ParseValue(s, i).end, AfterValue)
  {
    hide SkipNested, MatchFrom, ScalarEnd, LoadsScalar, ParseArray, ParseObject, ParseString, ParseNumber;
    var end := ParseValue(s, i).end;
    if s[i] == '[' || s[i] == '{' {
      NestedContainer(s, i, 2);
      assert SkipNested(s, i + 1, 2) == end by { SkipAtRoot(s, end); }
    } else if s[i] == '"' {
      ScanString(s, i, ValueNext);
    } else {
      ScalarCharacters(s, i);
      ScalarEndAt(s, i, end);
      ScalarSlice(s, i);
    }
  }

  lemma SkipAtRoot(s: string, i: nat)
    requires i <= |s|
    ensures SkipNested(s, i, 1) == i
  {
  }

  /** A colon, a comma and a closing brace where each of them is due. */
  lemma ScanSeparator(s: string, i: nat)
    requires i < |s|
    ensures s[i] == ':' ==> Scan(s, i, ColonNext) == Scan(s, i + 1, ValueNext)
    ensures s[i] == ',' ==> Scan(s, i, AfterValue) == Scan(s, i + 1, KeyNext)
    ensures s[i] == '}' ==> !Scan(s, i, AfterValue) && !Scan(s, i, KeyNext)
  {
    hide SkipNested, MatchFrom, ScalarEnd, LoadsScalar;
  }

  /** Over one root member the lexer answers by its key, or carries on behind its value. */
  lemma ScanMember(s: string, i: nat)
    requires i <= |s| && ParseMember(s, i).Read?
    requires ParseMember(s, i).end < |s| && EndsScalar(s[ParseMember(s, i).end])
    ensures var r := ParseMember(s, i);
      Scan(s, i, KeyNext) == (r.value.key == KeyUnits(0) || Scan(s, r.end, AfterValue))
  {
    hide Scan, ParseString, ParseValue, KeyUnits;
    ScanString(s, i, KeyNext);
    var end := ParseString(s, i).end;
    var colon := SkipSpace(s, end);
    ScanSpace(s, end, ColonNext);
    ScanSeparator(s, colon);
    ScanSpace(s, colon + 1, ValueNext);
    var start := SkipSpace(s, colon + 1);
    ScanValue(s, start);
    ScanSpace(s, ParseValue(s, start).end, AfterValue);
  }

  lemma HasKeyStep(member: Member, members: seq<Member>, key: Units)
    ensures HasKey([member] + members, key) <==> member.key == key || HasKey(members, key)
  {
    if member.key == key {
      assert member in [member] + members;
    }
    if HasKey(members, key) {
      var m :| m in members && m.key == key;
      assert m in [member] + members;
    }
  }

  lemma {:induction false} ScanMembers(s: string, i: nat)
    requires i <= |s| && ParseMembers(s, i).Read?
    ensures Scan(s, i, KeyNext) <==> HasKey(ParseMembers(s, i).value, KeyUnits(0))
    decreases |s| - i
  {
    hide Scan, ParseMembers, ParseMember, KeyUnits, HasKey;
    MembersShape(s, i);
    var member := ParseMember(s, i).value;
    var next := ParseMember(s, i).end;
    ScanMember(s, i);
    ScanSeparator(s, next);
    if s[next] == ',' {
      ScanSpace(s, next + 1, KeyNext);
      var after := SkipSpace(s, next + 1);
      ScanMembers(s, after);
      HasKeyStep(member, ParseMembers(s, after).value, KeyUnits(0));
    } else {
      HasKeyStep(member, [], KeyUnits(0));
      NoKey();
      assert ParseMembers(s, i).value == [member] + [];
    }
  }

  lemma NoKey()
    ensures !HasKey([], KeyUnits(0))
  {
  }

  // ----- agreement with the grammar -----

  lemma {:induction false} PythonSpaceStart(s: string, i: nat)
    requires i <= |s|
    requires SkipSpace(s, i) < |s| ==> !IsPythonSpace(s[SkipSpace(s, i)])
    ensures SkipPythonSpace(s, i) == SkipSpace(s, i)
    decreases |s| - i
  {
    if i < |s| && IsSpace(s[i]) {
      PythonSpaceStart(s, i + 1);
    }
  }

  lemma ValueStart(s: string, i: nat)
    requires i <= |s| && ParseValue(s, i).Read?
    ensures !IsPythonSpace(s[i])
    ensures ParseValue(s, i).value.Object? <==> s[i] == '{'
  {
    hide ParseNumber, ParseItems, ParseMembers;
    if s[i] != '[' && s[i] != '{' && s[i] != '"' {
      ScalarCharacters(s, i);
    }
  }

  /**
   On every JSON text, strict or not, the recogniser answers by the keys of the root object:
   nothing in strings, nested containers or scalars can make it answer otherwise.
   */
  lemma ExactOnJson(s: string)
    requires ParseText(s).Some?
    ensures Contains(s) <==> ClaimsKey(ParseText(s).value)
  {
    hide ParseMembers, ParseItems, ParseScalar, Scan, Unambiguous, HasKey, KeyUnits;
    var start := SkipSpace(s, 0);
    ValueStart(s, start);
    PythonSpaceStart(s, 0);
    if s[start] == '{' {
      var first := SkipSpace(s, start + 1);
      ScanSpace(s, start + 1, KeyNext);
      if s[first] == '}' {
        NoKey();
        ScanSeparator(s, first);
      } else {
        ScanMembers(s, first);
      }
    }
  }

  // ----- nothing hides the reserved key -----

  /** Position `p` is a key position of the root object whose first key position is `i`. */
  predicate KeyChain(s: string, i: nat, p: nat)
    requires i <= |s|
    decreases |s| - i
  {
    || p == i
    || match ParseMember(s, i)
       case Fail => false
       case Read(_, next) => next < |s| && s[next] == ',' && KeyChain(s, SkipSpace(s, next + 1), p)
  }

  /**
   The text is well formed up to position `p`, where a key of its root object is due: an
   opening brace, then any number of members with a comma behind each, and space.
   */
  predicate RootKeyPosition(s: string, p: nat) {
    var start := SkipSpace(s, 0);
    start < |s| && s[start] == '{' && KeyChain(s, SkipSpace(s, start + 1), p)
  }

  lemma {:induction false} ChainScan(s: string, i: nat, p: nat)
    requires i <= |s| && p <= |s| && KeyChain(s, i, p) && Scan(s, p, KeyNext)
    ensures Scan(s, i, KeyNext)
    decreases |s| - i
  {
    hide Scan, ParseMember, KeyUnits;
    if p != i {
      var next := ParseMember(s, i).end;
      ScanMember(s, i);
      ScanSeparator(s, next);
      ScanSpace(s, next + 1, KeyNext);
      ChainScan(s, SkipSpace(s, next + 1), p);
    }
  }

  lemma {:induction false} ChainParse(s: string, i: nat, p: nat)
    requires i <= |s| && p <= |s| && KeyChain(s, i, p) && ParseMembers(s, i).Read?
    requires ParseString(s, p).Read? ==> ParseString(s, p).value == KeyUnits(0)
    ensures HasKey(ParseMembers(s, i).value, KeyUnits(0))
    decreases |s| - i
  {
    hide ParseMember, ParseString, KeyUnits, HasKey;
    var member := ParseMember(s, i);
    var rest := ParseMembers(s, i).value[1..];
    assert ParseMembers(s, i).value == [member.value] + rest;
    HasKeyStep(member.value, rest, KeyUnits(0));
    if p == i {
      MemberKey(s, i);
    } else {
      ChainParse(s, SkipSpace(s, member.end + 1), p);
    }
  }

  lemma MemberKey(s: string, i: nat)
    requires i <= |s| && ParseMember(s, i).Read?
    ensures ParseString(s, i).Read? && ParseMember(s, i).value.key == ParseString(s, i).value
  {
    hide ParseString, ParseValue;
  }

  /**
   Whatever stands behind it, a string at a key position of the root object that spells the
   reserved key, or with which the text ends while it does so, is recognised.
   */
  lemma NothingHidesTheKey(s: string, p: nat, u: string)
    requires RootKeyPosition(s, p) && p + 1 < |s| && s[p] == '"'
    requires Spells(u, 0) && SpellsOrEnds(s[p + 1..], u)
    ensures Contains(s)
  {
    hide ParseMembers, Scan, MatchFrom, StringBody, KeyUnits, HasKey, Unambiguous, KeyChain, Spells, SpellsOrEnds,
      ParseValue, SkipPythonSpace;
    var start := SkipSpace(s, 0);
    var first := SkipSpace(s, start + 1);
    SpellingMatches(s, p + 1, u, 0);
    assert !IsPythonSpace(s[start]) && !IsPythonSpace(s[p]);
    PythonSpaceStart(s, 0);
    if StrictLoads(s).Some? {
      if ParseString(s, p).Read? {
        StringExact(s, p + 1, 0, true);
      }
      ChainStart(s, first, p);
      ObjectMembers(s, start);
      ChainParse(s, first, p);
    } else {
      assert Scan(s, p, KeyNext) by { ScanKey(s, p); }
      ChainScan(s, first, p);
      ScanSpace(s, start + 1, KeyNext);
    }
  }

  lemma ObjectMembers(s: string, i: nat)
    requires i < |s| && s[i] == '{' && ParseValue(s, i).Read?
    requires var first := SkipSpace(s, i + 1); first < |s| && s[first] != '}'
    ensures var r := ParseMembers(s, SkipSpace(s, i + 1)); r.Read? && ParseValue(s, i).value == Object(r.value)
  {
    hide ParseMembers;
    assert ParseValue(s, i) == ParseObject(s, i);
  }

  lemma ScanKey(s: string, p: nat)
    requires p < |s| && s[p] == '"' && MatchFrom(s, p + 1, 0, true).0
    ensures Scan(s, p, KeyNext)
  {
  }

  lemma ChainStart(s: string, i: nat, p: nat)
    requires i <= |s| && p < |s| && s[p] == '"' && KeyChain(s, i, p)
    ensures i < |s| && s[i] == '"'
  {
  }
}
