/**
 What the recogniser answers on a JSON text with a root object that has been cut short anywhere:
 it claims exactly the texts of which a complete root key is the reserved key, or which end while
 a root key spells it. A truncated ordinary cache is never taken for a manifest.
 */
module TruncatedText {
  import opened Basics
  import opened Json
  import opened ManifestKey
  import opened ManifestKeyLaws

  /** `t` is `s`, or what is left of it after a cut. */
  predicate CutOf(t: string, s: string) {
    t <= s
  }

  // ----- the strict classification adds nothing -----

  /** On every text whatsoever the hand-written lexer alone gives the recogniser's answer. */
  lemma LexerDecides(t: string)
    ensures Contains(t) <==> ScanText(t)
  {
    hide Scan, ParseValue, HasKey, KeyUnits, Unambiguous;
    if ParseText(t).Some? {
      var start := SkipSpace(t, 0);
      ValueStart(t, start);
      PythonSpaceStart(t, 0);
      if t[start] == '{' {
        RootScans(t, start);
      }
    }
  }

  lemma RootScans(t: string, start: nat)
    requires start < |t| && t[start] == '{' && ParseValue(t, start).Read?
    ensures Scan(t, start + 1, KeyNext) <==> ClaimsKey(ParseValue(t, start).value)
  {
    hide Scan, ParseMembers, HasKey, KeyUnits;
    assert ParseValue(t, start) == ParseObject(t, start);
    var first := SkipSpace(t, start + 1);
    ScanSpace(t, start + 1, KeyNext);
    if t[first] == '}' {
      NoKey();
      ScanSeparator(t, first);
    } else {
      ScanMembers(t, first);
    }
  }

  // ----- a string that is cut short -----

  /** Fewer than six characters, with which the escape of the key character `k` can begin. */
  predicate BeginsEscape(tail: string, k: nat)
    requires k < |MANIFEST_KEY|
  {
    || tail <= "\\u"
    || (|tail| > 2 && tail[..2] == "\\u" && Lower(tail[2..]) <= FourHex(MANIFEST_KEY[k] as int))
  }

  /** The text ends while it spells the reserved key from its character `k` on, or behind a whole spelling and `\u`. */
  predicate EndsSpelling(tail: string, k: nat)
    requires k <= |MANIFEST_KEY|
    decreases |tail|
  {
    if tail == "" then true
    else if k == |MANIFEST_KEY| then tail == "\\u"
    else if tail[0] != '\\' then tail[0] == MANIFEST_KEY[k] && EndsSpelling(tail[1..], k + 1)
    else if |tail| < 6 then BeginsEscape(tail, k)
    else IsPiece(tail[..6], MANIFEST_KEY[k]) && EndsSpelling(tail[6..], k + 1)
  }

  /** What one literal character does to the rest of the spelling. */
  lemma EndsLiteral(t: string, i: nat, k: nat)
    requires i < |t| && k <= |MANIFEST_KEY| && t[i] != '\\'
    ensures EndsSpelling(t[i..], k) <==> Hits(t[i] as int, k, true) && EndsSpelling(t[i + 1..], k + 1)
  {
    assert t[i..][1..] == t[i + 1..];
  }

  lemma EndsEscape(t: string, i: nat, k: nat)
    requires i + 6 <= |t| && k <= |MANIFEST_KEY| && t[i] == '\\' && t[i + 1] == 'u' && Hex4At(t, i + 2)
    ensures EndsSpelling(t[i..], k) <==> Hits(Hex4(t, i + 2), k, true) && EndsSpelling(t[i + 6..], k + 1)
  {
    var piece := t[i..][..6];
    assert t[i..][6..] == t[i + 6..];
    assert piece[0] == t[i] && piece[1] == t[i + 1] && piece[2] == t[i + 2] && piece[3] == t[i + 3]
           && piece[4] == t[i + 4] && piece[5] == t[i + 5];
  }

  lemma EndsInEscape(t: string, i: nat, k: nat)
    requires i + 2 <= |t| < i + 6 && k <= |MANIFEST_KEY| && t[i] == '\\' && t[i + 1] == 'u'
    ensures EndsSpelling(t[i..], k) <==> MatchesDigits(t[i + 2..], k)
  {
    var tail := t[i..];
    assert tail[2..] == t[i + 2..] && tail[..2] == "\\u";
  }

  lemma EndsOtherwise(t: string, i: nat, k: nat)
    requires i + 2 <= |t| && k <= |MANIFEST_KEY| && t[i] == '\\' && t[i + 1] != 'u'
    ensures !EndsSpelling(t[i..], k)
  {
    var tail := t[i..];
    assert tail[1] == t[i + 1] && tail[..2][1] == tail[1];
    assert |tail| >= 6 ==> tail[..6][1] == tail[1];
  }

  /**
   On a string that the end of the text cuts short the lexer matches exactly when the text ends
   while it spells what is left of the key, and has begun to.
   */
  lemma {:induction false} CutExact(s: string, t: string, i: nat, k: nat, matches: bool)
    requires CutOf(t, s) && i <= |t| && k <= |MANIFEST_KEY|
    requires StringBody(s, i).Read? && StringBody(s, i).end > |t|
    ensures MatchFrom(t, i, k, matches) == (matches && (k > 0 || i < |t|) && EndsSpelling(t[i..], k), |t|)
    decreases |t| - i
  {
    hide EndsSpelling, Hex4, EscapesTarget, MatchesDigits;
    if i == |t| {
      assert t[i..] == "" && EndsSpelling("", k) by { EndsNow(k); }
    } else if t[i] != '\\' {
      assert t[i] == s[i] && s[i] != '"';
      LiteralStep(t, i, k, matches);
      EndsLiteral(t, i, k);
      var hit := Hits(t[i] as int, k, matches);
      CutExact(s, t, i + 1, if hit then k + 1 else k, hit);
    } else if i + 1 == |t| {
      assert t[i..] == "\\";
      EndsBackslash(k);
    } else if t[i + 1] != 'u' {
      assert t[i] == s[i] && t[i + 1] == s[i + 1];
      EndsOtherwise(t, i, k);
      CutExact(s, t, i + 2, k, false);
    } else if i + 6 > |t| {
      EndsInEscape(t, i, k);
    } else {
      assert t[..i + 6] == s[..i + 6];
      SameHex(s, t, i + 2);
      EscapeStep(t, i, k, matches);
      EndsEscape(t, i, k);
      var hit := Hits(Hex4(t, i + 2), k, matches);
      CutExact(s, t, i + 6, if hit then k + 1 else k, hit);
    }
  }

  lemma EndsNow(k: nat)
    requires k <= |MANIFEST_KEY|
    ensures EndsSpelling("", k)
  {
  }

  lemma EndsBackslash(k: nat)
    requires k <= |MANIFEST_KEY|
    ensures EndsSpelling("\\", k) <==> k < |MANIFEST_KEY|
  {
  }

  lemma SameHex(s: string, t: string, i: nat)
    requires CutOf(t, s) && i + 4 <= |t| && Hex4At(s, i)
    ensures Hex4At(t, i)
  {
    assert t[i] == s[i] && t[i + 1] == s[i + 1] && t[i + 2] == s[i + 2] && t[i + 3] == s[i + 3];
  }

  // ----- which beginnings these are -----

  /**
   The text is the beginning of some spelling of the reserved key from its character `k` on. The
   lexer also takes a whole spelling followed by `\u` for one.
   */
  ghost predicate Begins(tail: string, k: nat)
    requires k <= |MANIFEST_KEY|
  {
    exists u :: Spells(u, k) && (tail <= u || tail == u + "\\u")
  }

  lemma SpellsOn(piece: string, u: string, k: nat)
    requires k < |MANIFEST_KEY| && (|piece| == 1 || |piece| == 6) && IsPiece(piece, MANIFEST_KEY[k]) && Spells(u, k + 1)
    ensures Spells(piece + u, k)
  {
    var all := piece + u;
    assert all[..|piece|] == piece && all[|piece|..] == u;
  }

  lemma PrefixOn(piece: string, tail: string, u: string)
    requires |piece| <= |tail| && tail[..|piece|] == piece
    ensures tail <= piece + u <==> tail[|piece|..] <= u
    ensures tail == piece + u + "\\u" <==> tail[|piece|..] == u + "\\u"
  {
    var n := |piece|;
    assert tail == piece + tail[n..];
    assert (piece + u)[n..] == u && (piece + u + "\\u")[n..] == u + "\\u";
    if tail <= piece + u {
      assert tail == (piece + u)[..|tail|];
      assert tail[n..] == u[..|tail| - n];
    }
    if tail[n..] <= u {
      assert tail[n..] == u[..|tail| - n];
      assert tail == (piece + u)[..|tail|];
    }
  }

  /** Digits of either case for the first `n`, and the printed ones for the rest, denote the same code. */
  lemma HexOfLower(piece: string, code: int, n: nat)
    requires 0 <= code < 0x1_0000 && |piece| == 6 && n <= 4
    requires Lower(piece[2..2 + n]) == FourHex(code)[..n] && piece[2 + n..] == FourHex(code)[n..]
    ensures Hex4At(piece, 2) && Hex4(piece, 2) == code
  {
    hide Hex4;
    var digits := FourHex(code);
    FourHexReads(code);
    forall j | 0 <= j < 4 ensures IsHex(piece[2 + j]) && LowerChar(piece[2 + j]) == digits[j] {
      if j < n {
        assert piece[2..2 + n][j] == piece[2 + j] && digits[..n][j] == digits[j];
      } else {
        assert piece[2 + n..][j - n] == piece[2 + j] && digits[n..][j - n] == digits[j];
      }
    }
    assert IsHex(piece[2 + 0]) && IsHex(piece[2 + 1]) && IsHex(piece[2 + 2]) && IsHex(piece[2 + 3]);
    LowerOfHex4(piece, 2);
    assert Lower(piece[2..6]) == digits;
    FourHexReads(Hex4(piece, 2));
  }

  /** The escape that the text has begun, completed. */
  lemma CompleteEscape(tail: string, k: nat) returns (piece: string)
    requires k < |MANIFEST_KEY| && tail != "" && |tail| < 6 && BeginsEscape(tail, k)
    ensures |piece| == 6 && tail <= piece && IsPiece(piece, MANIFEST_KEY[k])
  {
    hide FourHex, Hex4;
    KeyCharacters(k);
    var code := MANIFEST_KEY[k] as int;
    var digits := FourHex(code);
    if |tail| <= 2 {
      piece := "\\u" + digits;
      assert piece[2..2] == "" == digits[..0] && piece[2..] == digits == digits[0..];
      assert Lower("") == "";
      HexOfLower(piece, code, 0);
    } else {
      var n := |tail| - 2;
      piece := tail + digits[n..];
      assert piece[2..2 + n] == tail[2..] && piece[2 + n..] == digits[n..];
      assert piece[..2] == tail[..2] == "\\u";
      HexOfLower(piece, code, n);
    }
    assert piece[0] == piece[..2][0] && piece[1] == piece[..2][1];
  }

  lemma {:induction false} EndsBegins(tail: string, k: nat)
    requires k <= |MANIFEST_KEY| && EndsSpelling(tail, k)
    ensures Begins(tail, k)
    decreases |tail|
  {
    hide IsPiece, BeginsEscape, Spells, Begins;
    if tail == "" {
      EmptyBegins(k);
    } else if k == |MANIFEST_KEY| {
      QuirkBegins();
    } else if tail[0] != '\\' {
      EndsBegins(tail[1..], k + 1);
      LiteralIsPiece(k);
      assert tail[..1] == [MANIFEST_KEY[k]];
      BeginsOn(tail[..1], tail, k);
    } else if |tail| < 6 {
      EscapeBegins(tail, k);
    } else {
      EndsBegins(tail[6..], k + 1);
      BeginsOn(tail[..6], tail, k);
    }
  }

  lemma EmptyBegins(k: nat)
    requires k <= |MANIFEST_KEY|
    ensures Begins("", k)
  {
    hide Spells;
    KeySpellsItself(k);
    assert "" <= MANIFEST_KEY[k..];
  }

  lemma QuirkBegins()
    ensures Begins("\\u", |MANIFEST_KEY|)
  {
    assert Spells("", |MANIFEST_KEY|);
    assert "\\u" == "" + "\\u";
  }

  lemma EscapeBegins(tail: string, k: nat)
    requires k < |MANIFEST_KEY| && tail != "" && |tail| < 6 && BeginsEscape(tail, k)
    ensures Begins(tail, k)
  {
    hide IsPiece, BeginsEscape, Spells;
    var piece := CompleteEscape(tail, k);
    KeySpellsItself(k + 1);
    SpellsOn(piece, MANIFEST_KEY[k + 1..], k);
    assert tail <= piece + MANIFEST_KEY[k + 1..];
  }

  lemma LiteralIsPiece(k: nat)
    requires k < |MANIFEST_KEY|
    ensures IsPiece([MANIFEST_KEY[k]], MANIFEST_KEY[k])
  {
  }

  lemma BeginsOn(piece: string, tail: string, k: nat)
    requires k < |MANIFEST_KEY| && (|piece| == 1 || |piece| == 6) && |piece| <= |tail| && tail[..|piece|] == piece
    requires IsPiece(piece, MANIFEST_KEY[k]) && Begins(tail[|piece|..], k + 1)
    ensures Begins(tail, k)
  {
    hide IsPiece, Spells;
    var u :| Spells(u, k + 1) && (tail[|piece|..] <= u || tail[|piece|..] == u + "\\u");
    SpellsOn(piece, u, k);
    PrefixOn(piece, tail, u);
  }

  lemma {:induction false} BeginsEnds(tail: string, k: nat, u: string)
    requires k <= |MANIFEST_KEY| && Spells(u, k) && (tail <= u || tail == u + "\\u")
    ensures EndsSpelling(tail, k)
    decreases |tail|
  {
    if tail != "" && k < |MANIFEST_KEY| {
      KeyCharacters(k);
      hide BeginsEscape;
      if |u| >= 1 && IsPiece(u[..1], MANIFEST_KEY[k]) && Spells(u[1..], k + 1) {
        assert u[..1][0] == u[0] == tail[0] == MANIFEST_KEY[k];
        PiecePrefix(u[..1], tail, u);
        BeginsEnds(tail[1..], k + 1, u[1..]);
      } else {
        assert u[..6][0] == u[0] == tail[0] == '\\';
        if |tail| < 6 {
          EscapeBegun(tail, u[..6], k);
        } else {
          PiecePrefix(u[..6], tail, u);
          BeginsEnds(tail[6..], k + 1, u[6..]);
        }
      }
    }
  }

  lemma PiecePrefix(piece: string, tail: string, u: string)
    requires |piece| <= |tail| && |piece| <= |u| && u[..|piece|] == piece && (tail <= u || tail == u + "\\u")
    ensures tail[..|piece|] == piece
    ensures tail[|piece|..] <= u[|piece|..] || tail[|piece|..] == u[|piece|..] + "\\u"
  {
    assert u == piece + u[|piece|..];
    PrefixOn(piece, tail, u[|piece|..]);
  }

  lemma EscapeBegun(tail: string, piece: string, k: nat)
    requires k < |MANIFEST_KEY| && 0 < |tail| < 6 && tail <= piece && |piece| == 6 && IsPiece(piece, MANIFEST_KEY[k])
    ensures BeginsEscape(tail, k)
  {
    hide FourHex, Hex4;
    KeyCharacters(k);
    LowerOfHex4(piece, 2);
    if |tail| > 2 {
      assert tail[..2] == "\\u";
      assert tail[2..] == piece[2..6][..|tail| - 2];
      assert Lower(tail[2..]) == Lower(piece[2..6])[..|tail| - 2];
    }
  }

  lemma EndsIsBegins(tail: string)
    ensures EndsSpelling(tail, 0) <==> Begins(tail, 0)
  {
    hide EndsSpelling, Spells;
    if EndsSpelling(tail, 0) {
      EndsBegins(tail, 0);
    }
    if Begins(tail, 0) {
      var u :| Spells(u, 0) && (tail <= u || tail == u + "\\u");
      BeginsEnds(tail, 0, u);
    }
  }

  // ----- the lexer before the cut -----

  /** The string lexer on a cut text: the same up to the cut, and at its end when the cut comes first. */
  lemma {:induction false} MatchCut(s: string, t: string, i: nat, k: nat, matches: bool)
    requires CutOf(t, s) && i <= |t| && k <= |MANIFEST_KEY|
    ensures var whole := MatchFrom(s, i, k, matches); var cut := MatchFrom(t, i, k, matches);
      if whole.1 <= |t| then cut == whole else cut.1 == |t|
    decreases |t| - i
  {
    hide FourHex, AllHex, MatchesDigits;
    if |t| == |s| {
      assert t == s;
    } else if i < |t| {
      assert t[i] == s[i];
      if t[i] == '\\' && i + 1 < |t| {
        assert t[i + 1] == s[i + 1];
        if t[i + 1] != 'u' {
          MatchCut(s, t, i + 2, k, false);
        } else if i + 6 <= |t| {
          assert t[i + 2..i + 6] == s[i + 2..i + 6];
          var hit := matches && EscapesTarget(t[i + 2..i + 6], k);
          MatchCut(s, t, i + 6, if hit then k + 1 else k, hit);
        }
      } else if t[i] != '\\' && t[i] != '"' {
        var hit := matches && k < |MANIFEST_KEY| && t[i] == MANIFEST_KEY[k];
        MatchCut(s, t, i + 1, if hit then k + 1 else k, hit);
      }
    }
  }

  lemma {:induction false} SpaceCut(s: string, t: string, i: nat)
    requires CutOf(t, s) && i <= |t|
    ensures SkipSpace(t, i) == Min(SkipSpace(s, i), |t|)
    decreases |t| - i
  {
    if i < |t| && IsSpace(s[i]) {
      SpaceCut(s, t, i + 1);
    }
  }

  /** Counting brackets on a cut text: the same up to the cut, and at its end when the cut comes first. */
  lemma {:induction false} NestedCut(s: string, t: string, i: nat, depth: nat)
    requires CutOf(t, s) && i <= |t| && depth >= 1
    ensures SkipNested(t, i, depth) == Min(SkipNested(s, i, depth), |t|)
    decreases |t| - i
  {
    hide MatchFrom;
    if i < |t| && depth > 1 {
      assert t[i] == s[i];
      if t[i] == '"' {
        MatchCut(s, t, i + 1, 0, true);
        var end := MatchFrom(t, i + 1, 0, true).1;
        NestedCut(s, t, end, depth);
      } else {
        var next := if t[i] == '{' || t[i] == '[' then depth + 1
                    else if t[i] == '}' || t[i] == ']' then depth - 1 else depth;
        NestedCut(s, t, i + 1, next);
      }
    }
  }

  /** What the lexer does at a value of the root object, by the value's first character. */
  lemma ScanAtValue(t: string, i: nat)
    requires i < |t| && !IsPythonSpace(t[i])
    ensures t[i] == '"' ==> Scan(t, i, ValueNext) == Scan(t, MatchFrom(t, i + 1, 0, true).1, AfterValue)
    ensures t[i] == '{' || t[i] == '[' ==> Scan(t, i, ValueNext) == Scan(t, SkipNested(t, i + 1, 2), AfterValue)
    ensures !Structural(t[i]) ==>
              Scan(t, i, ValueNext) == (LoadsScalar(t[i..ScalarEnd(t, i)]) && Scan(t, ScalarEnd(t, i), AfterValue))
  {
    hide SkipNested, MatchFrom, LoadsScalar, IsPythonSpace;
  }

  lemma ScanAtEnd(t: string, state: RootState)
    ensures !Scan(t, |t|, state)
  {
  }

  /** A root value takes the lexer past it, or to the end of a text that is cut short within it. */
  lemma ValueCut(s: string, t: string, i: nat)
    requires CutOf(t, s) && i < |t| && ParseValue(s, i).Read?
    requires var end := ParseValue(s, i).end; end < |t| ==> EndsScalar(s[end])
    ensures var end := ParseValue(s, i).end; Scan(t, i, ValueNext) == (end < |t| && Scan(t, end, AfterValue))
  {
    hide Scan, SkipNested, MatchFrom, ScalarEnd, LoadsScalar, EndsScalar, ParseArray, ParseObject, ParseScalar,
      IsPythonSpace;
    var end := ParseValue(s, i).end;
    assert t[i] == s[i];
    ValueStart(s, i);
    ScanAtValue(t, i);
    ScanAtEnd(t, AfterValue);
    if s[i] == '[' || s[i] == '{' {
      NestedContainer(s, i, 2);
      SkipAtRoot(s, end);
      NestedCut(s, t, i + 1, 2);
    } else if s[i] == '"' {
      StringCut(s, t, i);
    } else {
      ScalarCut(s, t, i);
    }
  }

  lemma StringCut(s: string, t: string, i: nat)
    requires CutOf(t, s) && i < |t| && ParseScalar(s, i).Read? && s[i] == '"'
    ensures MatchFrom(t, i + 1, 0, true).1 == Min(ParseScalar(s, i).end, |t|)
  {
    hide StringBody, MatchFrom;
    StringExact(s, i + 1, 0, true);
    MatchCut(s, t, i + 1, 0, true);
  }

  lemma ScalarCut(s: string, t: string, i: nat)
    requires CutOf(t, s) && i < |t| && ParseScalar(s, i).Read? && s[i] != '"'
    requires var end := ParseScalar(s, i).end; end < |t| ==> EndsScalar(s[end])
    ensures var end := ParseScalar(s, i).end;
      && ScalarEnd(t, i) == Min(end, |t|)
      && (end < |t| ==> LoadsScalar(t[i..end]))
      && !IsPythonSpace(t[i]) && !Structural(t[i])
  {
    hide ParseScalar, LoadsScalar, ScalarEnd;
    var end := ParseScalar(s, i).end;
    ScalarCharacters(s, i);
    assert forall k :: i <= k < Min(end, |t|) ==> t[k] == s[k] && !EndsScalar(t[k]);
    if end < |t| {
      assert t[end] == s[end];
      ScalarEndAt(t, i, end);
      ScalarSlice(s, i);
      assert t[i..end] == s[i..end];
    }
  }

  // ----- the keys before the cut -----

  /**
   The key at position `p` claims the text that ends at `k`: it is complete and is the reserved
   key, or the text ends while it spells the reserved key.
   */
  ghost predicate Claims(s: string, p: nat, k: nat)
    requires p <= |s|
  {
    && p < k <= |s| && s[p] == '"'
    && match ParseString(s, p)
       case Fail => false
       case Read(key, end) => if end <= k then key == KeyUnits(0) else p + 1 < k && Begins(s[p + 1..k], 0)
  }

  /** Over one root member the lexer answers by its key, or carries on behind its value if the cut is further on. */
  lemma MemberCut(s: string, t: string, i: nat)
    requires CutOf(t, s) && i < |t| && ParseMember(s, i).Read?
    requires var next := ParseMember(s, i).end; next < |t| ==> EndsScalar(s[next])
    ensures var next := ParseMember(s, i).end;
      Scan(t, i, KeyNext) == (Claims(s, i, |t|) || (next < |t| && Scan(t, next, AfterValue)))
  {
    hide Scan, ParseString, ParseValue, KeyUnits, Claims;
    var end := ParseString(s, i).end;
    KeyCut(s, t, i);
    if end <= |t| {
      BehindKey(s, t, i, end);
    } else {
      ScanAtEnd(t, ColonNext);
    }
  }

  /** At a key the lexer answers by what is left of it, or goes on to look for the colon. */
  lemma KeyCut(s: string, t: string, i: nat)
    requires CutOf(t, s) && i < |t| && ParseString(s, i).Read?
    ensures Scan(t, i, KeyNext) == (Claims(s, i, |t|) || Scan(t, Min(ParseString(s, i).end, |t|), ColonNext))
  {
    hide StringBody, MatchFrom, KeyUnits, SkipNested, ScalarEnd, LoadsScalar, EndsSpelling, Begins;
    assert t[i] == s[i] == '"';
    StringExact(s, i + 1, 0, true);
    MatchCut(s, t, i + 1, 0, true);
    if ParseString(s, i).end > |t| {
      assert t[i + 1..] == s[i + 1..|t|];
      CutExact(s, t, i + 1, 0, true);
      EndsIsBegins(t[i + 1..]);
    }
  }

  lemma BehindKey(s: string, t: string, i: nat, end: nat)
    requires CutOf(t, s) && i < |t| && ParseMember(s, i).Read? && end == ParseString(s, i).end <= |t|
    requires var next := ParseMember(s, i).end; next < |t| ==> EndsScalar(s[next])
    ensures var next := ParseMember(s, i).end; Scan(t, end, ColonNext) == (next < |t| && Scan(t, next, AfterValue))
  {
    hide Scan, ParseString, ParseValue, SkipSpace;
    var colon := SkipSpace(s, end);
    ScanAtEnd(t, ColonNext);
    ScanAtEnd(t, ValueNext);
    ScanAtEnd(t, AfterValue);
    SpaceCut(s, t, end);
    ScanSpace(t, end, ColonNext);
    if colon < |t| {
      assert t[colon] == s[colon];
      ScanSeparator(t, colon);
      SpaceCut(s, t, colon + 1);
      ScanSpace(t, colon + 1, ValueNext);
      var start := SkipSpace(s, colon + 1);
      if start < |t| {
        ValueCut(s, t, start);
        var last := ParseValue(s, start).end;
        if last < |t| {
          SpaceCut(s, t, last);
          ScanSpace(t, last, AfterValue);
        }
      }
    }
  }

  ghost predicate ClaimedFrom(s: string, i: nat, k: nat)
    requires i <= |s|
  {
    exists p :: 0 <= p <= |s| && KeyChain(s, i, p) && Claims(s, p, k)
  }

  lemma {:induction false} ChainBehind(s: string, i: nat, p: nat)
    requires i <= |s| && KeyChain(s, i, p)
    ensures i <= p
    decreases |s| - i
  {
    hide ParseMember;
    if p != i {
      ChainBehind(s, SkipSpace(s, ParseMember(s, i).end + 1), p);
    }
  }

  /** Over the members of the root object the lexer answers by the keys before the cut. */
  lemma {:induction false} MembersCut(s: string, t: string, i: nat)
    requires CutOf(t, s) && i <= |t| && ParseMembers(s, i).Read?
    ensures Scan(t, i, KeyNext) <==> ClaimedFrom(s, i, |t|)
    decreases |s| - i
  {
    hide Scan, ParseMembers, ParseMember, Claims;
    if i == |t| {
      ScanAtEnd(t, KeyNext);
      NothingClaimedBehind(s, i, |t|);
    } else {
      MembersShape(s, i);
      var next := ParseMember(s, i).end;
      MemberCut(s, t, i);
      if next < |t| {
        assert t[next] == s[next];
        ScanSeparator(t, next);
        if s[next] == ',' {
          var after := SkipSpace(s, next + 1);
          SpaceCut(s, t, next + 1);
          ScanSpace(t, next + 1, KeyNext);
          if after < |t| {
            MembersCut(s, t, after);
          } else {
            ScanAtEnd(t, KeyNext);
            NothingClaimedBehind(s, after, |t|);
          }
        }
      }
      ClaimedStep(s, i, |t|);
    }
  }

  lemma NothingClaimedBehind(s: string, i: nat, k: nat)
    requires k <= i <= |s|
    ensures !ClaimedFrom(s, i, k)
  {
    hide KeyChain;
    forall p: nat | p <= |s| && KeyChain(s, i, p) ensures !Claims(s, p, k) {
      ChainBehind(s, i, p);
    }
  }

  /** The claim is made by the first key, or by one behind a comma that the text still holds. */
  lemma ClaimedStep(s: string, i: nat, k: nat)
    requires i <= |s| && ParseMember(s, i).Read?
    ensures var next := ParseMember(s, i).end;
      ClaimedFrom(s, i, k) <==>
        || Claims(s, i, k)
        || (next < |s| && s[next] == ',' && next < k && ClaimedFrom(s, SkipSpace(s, next + 1), k))
  {
    hide Claims, ParseMember;
    var next := ParseMember(s, i).end;
    if ClaimedFrom(s, i, k) && !Claims(s, i, k) {
      var p :| 0 <= p <= |s| && KeyChain(s, i, p) && Claims(s, p, k);
      ChainBehind(s, SkipSpace(s, next + 1), p);
      ClaimsBefore(s, p, k);
    }
    if next < |s| && s[next] == ',' && ClaimedFrom(s, SkipSpace(s, next + 1), k) {
      var p :| 0 <= p <= |s| && KeyChain(s, SkipSpace(s, next + 1), p) && Claims(s, p, k);
      assert KeyChain(s, i, p);
    }
    assert KeyChain(s, i, i);
  }

  lemma ClaimsBefore(s: string, p: nat, k: nat)
    requires p <= |s| && Claims(s, p, k)
    ensures p < k
  {
  }

  // ----- any cut of a JSON text -----

  /** Some key position of the root object claims what is left. */
  ghost predicate SomeKeyClaims(s: string, k: nat) {
    exists p :: 0 <= p <= |s| && RootKeyPosition(s, p) && Claims(s, p, k)
  }

  /**
   However a JSON text with a root object is cut short, the recogniser answers exactly whether a
   complete root key is the reserved key, or the cut falls where a root key spells it.
   */
  lemma ExactOnTruncated(s: string, k: nat)
    requires ParseText(s).Some? && ParseText(s).value.Object? && k <= |s|
    ensures Contains(s[..k]) <==> SomeKeyClaims(s, k)
  {
    hide Contains, Scan, ParseMembers, KeyChain, Claims, HasKey, KeyUnits, ParseScalar, ParseArray;
    var t := s[..k];
    var start := SkipSpace(s, 0);
    LexerDecides(t);
    ValueStart(s, start);
    SpaceCut(s, t, 0);
    var first := SkipSpace(s, start + 1);
    assert SomeKeyClaims(s, k) <==> ClaimedFrom(s, first, k);
    if k <= start {
      SpaceOnly(t);
      NothingClaimedBehind(s, first, k);
    } else {
      assert t[start] == s[start];
      PythonSpaceStart(t, 0);
      SpaceCut(s, t, start + 1);
      ScanSpace(t, start + 1, KeyNext);
      ScanAtEnd(t, KeyNext);
      if first >= k {
        NothingClaimedBehind(s, first, k);
      } else if s[first] == '}' {
        assert t[first] == s[first];
        ScanSeparator(t, first);
        EmptyClaimsNothing(s, first, k);
      } else {
        assert ParseValue(s, start) == ParseObject(s, start);
        MembersCut(s, t, first);
      }
    }
  }

  lemma SpaceOnly(t: string)
    requires SkipSpace(t, 0) == |t|
    ensures !ScanText(t)
  {
    PythonSpaceStart(t, 0);
  }

  lemma EmptyClaimsNothing(s: string, first: nat, k: nat)
    requires first < |s| && s[first] == '}'
    ensures !ClaimedFrom(s, first, k)
  {
    hide StringBody;
    forall p: nat | p <= |s| && KeyChain(s, first, p) ensures !Claims(s, p, k) {
      assert ParseMember(s, first) == Fail;
    }
  }

  /** A cache none of whose root keys begins like the reserved key is never taken for a manifest, wherever it is cut. */
  lemma OrdinaryCacheIsNotClaimed(s: string, k: nat)
    requires ParseText(s).Some? && ParseText(s).value.Object? && k <= |s|
    requires forall p :: 0 <= p && p + 1 < |s| && RootKeyPosition(s, p) ==> s[p + 1] != 'w' && s[p + 1] != '\\'
    ensures !Contains(s[..k])
  {
    hide Contains, RootKeyPosition, ParseText;
    ExactOnTruncated(s, k);
    forall p: nat | p <= |s| && RootKeyPosition(s, p) ensures !Claims(s, p, k) {
      if Claims(s, p, k) {
        ClaimBegins(s, p, k);
      }
    }
  }

  lemma ClaimBegins(s: string, p: nat, k: nat)
    requires p <= |s| && Claims(s, p, k)
    ensures p + 1 < |s| && (s[p + 1] == 'w' || s[p + 1] == '\\')
  {
    if ParseString(s, p).end > k {
      var tail := s[p + 1..k];
      EndsIsBegins(tail);
      assert tail[0] == s[p + 1];
    } else {
      assert KeyUnits(0)[0] == 'w' as int;
    }
  }

  // ----- the one beginning that is none -----

  lemma {:induction false} KeyThenEscape(t: string, k: nat)
    requires k <= |MANIFEST_KEY| && t == "{\"" + MANIFEST_KEY + "\\u"
    ensures MatchFrom(t, k + 2, k, true).0
    decreases |MANIFEST_KEY| - k
  {
    if k < |MANIFEST_KEY| {
      hide MatchFrom;
      KeyCharacters(k);
      assert t[k + 2] == MANIFEST_KEY[k];
      LiteralStep(t, k + 2, k, true);
      KeyThenEscape(t, k + 1);
    } else {
      assert t[k + 2..] == "\\u" && t[k + 4..] == "";
    }
  }

  lemma ConsPrefix(c: char, w: string, u: string)
    requires [c] + w <= u
    ensures u != "" && u[0] == c && w <= u[1..]
    ensures u[1..] == w ==> u == [c] + w
  {
    var n := |w|;
    assert u[..n + 1] == [c] + w;
    assert u[1..][..n] == u[..n + 1][1..] == w;
    assert u == [u[0]] + u[1..];
  }

  lemma DropOne(t: string, k: nat)
    requires k < |t|
    ensures t[k..] == [t[k]] + t[k + 1..] && t[k..][1..] == t[k + 1..]
  {
  }

  lemma SpellsLiteral(u: string, k: nat)
    requires k < |MANIFEST_KEY| && Spells(u, k) && u != "" && u[0] == MANIFEST_KEY[k]
    ensures Spells(u[1..], k + 1)
  {
    KeyCharacters(k);
    assert |u| >= 6 ==> u[..6][0] == u[0];
  }

  /** A spelling that begins with the rest of the key itself is the rest of the key. */
  lemma {:induction false} NoSpellingGoesOn(u: string, k: nat, rest: string)
    requires k <= |MANIFEST_KEY| && rest == MANIFEST_KEY[k..] && Spells(u, k) && rest <= u
    ensures u == rest
    decreases |MANIFEST_KEY| - k
  {
    if k < |MANIFEST_KEY| {
      hide Spells;
      DropOne(MANIFEST_KEY, k);
      ConsPrefix(MANIFEST_KEY[k], rest[1..], u);
      SpellsLiteral(u, k);
      NoSpellingGoesOn(u[1..], k + 1, rest[1..]);
    }
  }

  lemma KeyIsPrefix(u: string)
    ensures MANIFEST_KEY + "\\u" <= u ==> MANIFEST_KEY <= u && u != MANIFEST_KEY
  {
    if MANIFEST_KEY + "\\u" <= u {
      assert u[..|MANIFEST_KEY|] == (MANIFEST_KEY + "\\u")[..|MANIFEST_KEY|] == MANIFEST_KEY;
    }
  }

  /** A text that ends behind the whole key and `\u` is claimed, although no spelling begins like this. */
  lemma WholeKeyAndEscape()
    ensures Contains("{\"" + MANIFEST_KEY + "\\u")
    ensures forall u :: Spells(u, 0) ==> !(MANIFEST_KEY + "\\u" <= u)
  {
    hide MatchFrom, Spells, Contains;
    var t := "{\"" + MANIFEST_KEY + "\\u";
    KeyThenEscape(t, 0);
    LexerDecides(t);
    assert t[0] == '{' && t[1] == '"';
    assert SkipPythonSpace(t, 0) == 0;
    ScanKey(t, 1);
    forall u | Spells(u, 0) ensures !(MANIFEST_KEY + "\\u" <= u) {
      assert MANIFEST_KEY[0..] == MANIFEST_KEY;
      if MANIFEST_KEY <= u {
        NoSpellingGoesOn(u, 0, MANIFEST_KEY);
      }
      KeyIsPrefix(u);
    }
  }
}
