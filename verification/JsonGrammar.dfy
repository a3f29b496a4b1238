/**
 The grammar of JSON text (RFC 8259) as a relation between stretches of a text and the values they
 spell, written without the reader of `Json`, and the proof that the reader gives a value for a text
 exactly when the text spells it.
 */
module JsonGrammar {
  import opened Basics
  import opened Json

  // ----- white space (section 2) -----

  predicate White(c: char) {
    c == ' ' || c == '\t' || c == '\n' || c == '\r'
  }

  predicate WhiteAt(s: string, i: nat, j: nat)
    requires i <= j <= |s|
  {
    forall k :: i <= k < j ==> White(s[k])
  }

  // ----- strings (section 7) -----

  /** The UTF-16 form of a character (RFC 2781 section 2.1). */
  predicate Utf16(c: char, units: Units) {
    var code := c as int;
    if code < 0x1_0000 then units == [code]
    else
      && |units| == 2 && 0xD800 <= units[0] < 0xDC00 && 0xDC00 <= units[1] < 0xE000
      && code == 0x1_0000 + (units[0] - 0xD800) * 0x400 + (units[1] - 0xDC00)
  }

  predicate Escapes(c: char, unit: int) {
    || (c == '"' && unit == 0x22)
    || (c == '\\' && unit == 0x5C)
    || (c == '/' && unit == 0x2F)
    || (c == 'b' && unit == 0x08)
    || (c == 'f' && unit == 0x0C)
    || (c == 'n' && unit == 0x0A)
    || (c == 'r' && unit == 0x0D)
    || (c == 't' && unit == 0x09)
  }

  /** The value of a hexadecimal digit of either case, and -1 for any other character. */
  function HexCode(c: char): int {
    if '0' <= c <= '9' then c as int - 0x30
    else if 'a' <= c <= 'f' then c as int - 0x61 + 10
    else if 'A' <= c <= 'F' then c as int - 0x41 + 10
    else -1
  }

  predicate HexAt(s: string, i: nat, unit: int) {
    && i + 4 <= |s|
    && HexCode(s[i]) >= 0 && HexCode(s[i + 1]) >= 0 && HexCode(s[i + 2]) >= 0 && HexCode(s[i + 3]) >= 0
    && unit == HexCode(s[i]) * 0x1000 + HexCode(s[i + 1]) * 0x100 + HexCode(s[i + 2]) * 0x10 + HexCode(s[i + 3])
  }

  /** One character of a string: itself, or one of the two kinds of escape. */
  predicate PieceAt(s: string, i: nat, j: nat, units: Units)
    requires i <= j <= |s|
  {
    || (j == i + 1 && s[i] >= ' ' && s[i] != '"' && s[i] != '\\' && Utf16(s[i], units))
    || (j == i + 2 && s[i] == '\\' && |units| == 1 && Escapes(s[i + 1], units[0]))
    || (j == i + 6 && s[i] == '\\' && s[i + 1] == 'u' && |units| == 1 && HexAt(s, i + 2, units[0]))
  }

  ghost predicate CharsAt(s: string, i: nat, j: nat, units: Units)
    requires i <= j <= |s|
    decreases j - i
  {
    if i == j then units == []
    else exists k, n :: i < k <= j && 0 <= n <= |units| && PieceAt(s, i, k, units[..n]) && CharsAt(s, k, j, units[n..])
  }

  ghost predicate StringAt(s: string, i: nat, j: nat, units: Units)
    requires i <= j <= |s|
  {
    i + 2 <= j && s[i] == '"' && s[j - 1] == '"' && CharsAt(s, i + 1, j - 1, units)
  }

  // ----- numbers (section 6) -----

  predicate DigitChar(c: char) {
    '0' <= c <= '9'
  }

  predicate DigitsAt(s: string, i: nat, j: nat)
    requires j <= |s|
  {
    i < j && forall k :: i <= k < j ==> DigitChar(s[k])
  }

  /** Digits without a leading zero, unless it is the only one. */
  predicate WholeAt(s: string, i: nat, j: nat)
    requires j <= |s|
  {
    DigitsAt(s, i, j) && (s[i] == '0' ==> j == i + 1)
  }

  /** The digits are the decimal numeral of `n`. */
  predicate NumeralAt(s: string, i: nat, j: nat, n: nat)
    requires j <= |s|
    decreases j
  {
    && i < j && DigitChar(s[j - 1]) && s[j - 1] as int == 0x30 + n % 10
    && if j == i + 1 then n < 10 else NumeralAt(s, i, j - 1, n / 10)
  }

  predicate IntegerAt(s: string, i: nat, j: nat, n: int)
    requires i <= j <= |s|
  {
    || (WholeAt(s, i, j) && n >= 0 && NumeralAt(s, i, j, n))
    || (i < j && s[i] == '-' && WholeAt(s, i + 1, j) && n <= 0 && NumeralAt(s, i + 1, j, -n))
  }

  predicate FractionAt(s: string, i: nat, j: nat)
    requires i <= j <= |s|
  {
    i < j && s[i] == '.' && DigitsAt(s, i + 1, j)
  }

  predicate ExponentAt(s: string, i: nat, j: nat)
    requires i <= j <= |s|
  {
    && i < j && (s[i] == 'e' || s[i] == 'E')
    && (DigitsAt(s, i + 1, j) || (i + 1 < j && (s[i + 1] == '+' || s[i + 1] == '-') && DigitsAt(s, i + 2, j)))
  }

  /** A number with a fraction, an exponent, or both. */
  ghost predicate FloatAt(s: string, i: nat, j: nat)
    requires i <= j <= |s|
  {
    exists a, b, c ::
      && i <= a < b <= c <= j && b < j && (a == i || (a == i + 1 && s[i] == '-')) && WholeAt(s, a, b)
      && (c == b || FractionAt(s, b, c)) && (j == c || ExponentAt(s, c, j))
  }

  // ----- values (sections 3 to 5) -----

  ghost predicate ValueAt(s: string, i: nat, j: nat, v: Value)
    requires i <= j <= |s|
    decreases v, 0
  {
    match v
    case Null => s[i..j] == "null"
    case Bool(truth) => s[i..j] == if truth then "true" else "false"
    case Int(n) => IntegerAt(s, i, j, n)
    case Float => FloatAt(s, i, j)
    case Str(text) => StringAt(s, i, j, text)
    case Array(items) => i + 2 <= j && s[i] == '[' && s[j - 1] == ']' && ItemsAt(s, i + 1, j - 1, items)
    case Object(members) => i + 2 <= j && s[i] == '{' && s[j - 1] == '}' && MembersAt(s, i + 1, j - 1, members)
  }

  /** A value with white space around it. */
  ghost predicate ElementAt(s: string, i: nat, j: nat, v: Value)
    requires i <= j <= |s|
    decreases v, 1
  {
    exists a, b :: i <= a <= b <= j && WhiteAt(s, i, a) && ValueAt(s, a, b, v) && WhiteAt(s, b, j)
  }

  ghost predicate ItemsAt(s: string, i: nat, j: nat, items: seq<Value>)
    requires i <= j <= |s|
    decreases items, 2
  {
    if items == [] then WhiteAt(s, i, j)
    else if |items| == 1 then ElementAt(s, i, j, items[0])
    else exists k :: i <= k < j && s[k] == ',' && ElementAt(s, i, k, items[0]) && ItemsAt(s, k + 1, j, items[1..])
  }

  ghost predicate MemberAt(s: string, i: nat, j: nat, m: Member)
    requires i <= j <= |s|
    decreases m, 2
  {
    exists a, b, k ::
      && i <= a <= b <= k < j && WhiteAt(s, i, a) && StringAt(s, a, b, m.key) && WhiteAt(s, b, k) && s[k] == ':'
      && ElementAt(s, k + 1, j, m.value)
  }

  ghost predicate MembersAt(s: string, i: nat, j: nat, members: seq<Member>)
    requires i <= j <= |s|
    decreases members, 3
  {
    if members == [] then WhiteAt(s, i, j)
    else if |members| == 1 then MemberAt(s, i, j, members[0])
    else exists k :: i <= k < j && s[k] == ',' && MemberAt(s, i, k, members[0]) && MembersAt(s, k + 1, j, members[1..])
  }

  /** The whole text spells the value. */
  ghost predicate Denotes(text: string, v: Value) {
    ElementAt(text, 0, |text|, v)
  }

  // ----- what is spelled is read: strings -----

  lemma HexDigitReads(c: char)
    ensures HexCode(c) >= 0 <==> IsHex(c)
    ensures IsHex(c) ==> HexValue(c) == HexCode(c)
  {
  }

  lemma HexReads(s: string, i: nat, unit: int)
    ensures HexAt(s, i, unit) <==> Hex4At(s, i) && Hex4(s, i) == unit
  {
    hide HexCode, IsHex, HexValue;
    if i + 4 <= |s| {
      HexDigitReads(s[i]);
      HexDigitReads(s[i + 1]);
      HexDigitReads(s[i + 2]);
      HexDigitReads(s[i + 3]);
    }
  }

  lemma UnitsOfChar(c: char, units: Units)
    ensures Utf16(c, units) <==> units == CharUnits(c)
  {
  }

  lemma EscapeReads(c: char, unit: int)
    ensures Escapes(c, unit) <==> SimpleEscape(c) == Some(unit)
    ensures SimpleEscape('u') == None
  {
  }

  /** A piece is read first, and the rest of the string behind it. */
  lemma PieceReads(s: string, i: nat, k: nat, units: Units)
    requires i < k <= |s| && PieceAt(s, i, k, units)
    ensures StringBody(s, i) == Prepend(units, StringBody(s, k))
  {
    hide HexAt, Hex4At, Hex4, Utf16, CharUnits, Escapes, SimpleEscape, Prepend;
    if k == i + 1 {
      UnitsOfChar(s[i], units);
    } else if k == i + 2 {
      EscapeReads(s[i + 1], units[0]);
      assert [units[0]] == units;
    } else {
      HexReads(s, i + 2, units[0]);
      assert [units[0]] == units;
    }
  }

  lemma {:induction false} CharsRead(s: string, i: nat, j: nat, units: Units)
    requires i <= j < |s| && s[j] == '"' && CharsAt(s, i, j, units)
    ensures StringBody(s, i) == Read(units, j + 1)
    decreases j - i
  {
    if i < j {
      hide PieceAt, StringBody, CharsAt;
      var k, first, rest := NextPiece(s, i, j, units);
      CharsRead(s, k, j, rest);
      PieceReads(s, i, k, first);
    }
  }

  lemma NextPiece(s: string, i: nat, j: nat, units: Units) returns (k: nat, first: Units, rest: Units)
    requires i < j <= |s| && CharsAt(s, i, j, units)
    ensures i < k <= j && PieceAt(s, i, k, first) && CharsAt(s, k, j, rest) && units == first + rest
  {
    hide PieceAt;
    var n: int;
    k, n :| i < k <= j && 0 <= n <= |units| && PieceAt(s, i, k, units[..n]) && CharsAt(s, k, j, units[n..]);
    first, rest := units[..n], units[n..];
  }

  lemma StringReads(s: string, i: nat, j: nat, units: Units)
    requires i <= j <= |s| && StringAt(s, i, j, units)
    ensures ParseString(s, i) == Read(units, j)
  {
    CharsRead(s, i + 1, j - 1, units);
  }

  lemma PieceFirst(s: string, i: nat, k: nat, j: nat, first: Units, rest: Units)
    requires i < k <= j <= |s| && PieceAt(s, i, k, first) && CharsAt(s, k, j, rest)
    ensures CharsAt(s, i, j, first + rest)
  {
    hide PieceAt;
    var units := first + rest;
    assert units[..|first|] == first && units[|first|..] == rest;
  }

  lemma {:induction false} CharsSpelled(s: string, i: nat)
    requires i <= |s| && StringBody(s, i).Read?
    ensures CharsAt(s, i, StringBody(s, i).end - 1, StringBody(s, i).value)
    decreases |s| - i
  {
    hide HexAt, Hex4At, Hex4, Utf16, CharUnits, Escapes, SimpleEscape, CharsAt;
    var j := StringBody(s, i).end - 1;
    if s[i] == '"' {
      NoChars(s, i);
    } else if s[i] == '\\' && s[i + 1] == 'u' {
      CharsSpelled(s, i + 6);
      HexReads(s, i + 2, Hex4(s, i + 2));
      PieceFirst(s, i, i + 6, j, [Hex4(s, i + 2)], StringBody(s, i + 6).value);
    } else if s[i] == '\\' {
      CharsSpelled(s, i + 2);
      EscapeReads(s[i + 1], SimpleEscape(s[i + 1]).value);
      PieceFirst(s, i, i + 2, j, [SimpleEscape(s[i + 1]).value], StringBody(s, i + 2).value);
    } else {
      CharsSpelled(s, i + 1);
      UnitsOfChar(s[i], CharUnits(s[i]));
      PieceFirst(s, i, i + 1, j, CharUnits(s[i]), StringBody(s, i + 1).value);
    }
  }

  lemma NoChars(s: string, i: nat)
    requires i <= |s|
    ensures CharsAt(s, i, i, [])
  {
  }

  lemma StringSpelled(s: string, i: nat)
    requires i <= |s| && ParseString(s, i).Read?
    ensures StringAt(s, i, ParseString(s, i).end, ParseString(s, i).value)
  {
    hide StringBody, CharsAt;
    CharsSpelled(s, i + 1);
  }

  // ----- numbers -----

  lemma {:induction false} DigitsRead(s: string, i: nat, j: nat)
    requires i <= j <= |s| && (forall k :: i <= k < j ==> DigitChar(s[k])) && (j < |s| ==> !DigitChar(s[j]))
    ensures DigitsEnd(s, i) == j
    decreases j - i
  {
    if i < j {
      DigitsRead(s, i + 1, j);
    }
  }

  lemma {:induction false} NumeralReads(s: string, i: nat, j: nat, n: nat)
    requires i < j <= |s| && DigitsAt(s, i, j)
    ensures NumeralAt(s, i, j, n) <==> Decimal(s[i..j]) == n
    decreases j
  {
    var t := s[i..j];
    assert t[|t| - 1] == s[j - 1] && t[..|t| - 1] == s[i..j - 1];
    var d := s[j - 1] as int - 0x30;
    if j == i + 1 {
      assert Decimal(s[i..i]) == 0;
    } else {
      NumeralReads(s, i, j - 1, n / 10);
      DecimalNat(s[i..j - 1]);
      var m := Decimal(s[i..j - 1]);
      assert Decimal(t) == m * 10 + d;
      assert (m * 10 + d) / 10 == m && (m * 10 + d) % 10 == d;
    }
  }

  lemma {:induction false} DecimalNat(digits: string)
    requires forall k :: 0 <= k < |digits| ==> IsDigit(digits[k])
    ensures Decimal(digits) >= 0
  {
    if digits != "" {
      DecimalNat(digits[..|digits| - 1]);
    }
  }

  /** Where a value can end: nothing that continues a number follows. */
  predicate Follow(s: string, j: nat) {
    j < |s| ==> White(s[j]) || s[j] == ',' || s[j] == ']' || s[j] == '}'
  }

  /** The digits that start at `i` end at `j`. */
  lemma WholeReads(s: string, i: nat, j: nat)
    requires j <= |s| && WholeAt(s, i, j) && (j < |s| ==> !DigitChar(s[j]))
    ensures IntegerEnd(s, i) == j
  {
    hide DigitsEnd;
    if s[i] != '0' {
      DigitsRead(s, i, j);
    }
  }

  lemma WholeSpelled(s: string, i: nat)
    requires i <= |s| && IntegerEnd(s, i) > i
    ensures WholeAt(s, i, IntegerEnd(s, i))
  {
    hide DigitsEnd;
  }

  lemma NoFraction(s: string, i: nat)
    requires i <= |s| && (i < |s| ==> s[i] != '.')
    ensures FractionEnd(s, i) == i
  {
  }

  lemma NoExponent(s: string, i: nat)
    requires i <= |s| && (i < |s| ==> s[i] != 'e' && s[i] != 'E')
    ensures ExponentEnd(s, i) == i
  {
  }

  lemma FractionReads(s: string, i: nat, j: nat)
    requires i <= j <= |s| && FractionAt(s, i, j) && (j < |s| ==> !DigitChar(s[j]))
    ensures FractionEnd(s, i) == j
  {
    hide DigitsEnd;
    DigitsRead(s, i + 1, j);
  }

  lemma FractionSpelled(s: string, i: nat)
    requires i <= |s|
    ensures FractionEnd(s, i) == i || FractionAt(s, i, FractionEnd(s, i))
  {
  }

  lemma ExponentReads(s: string, i: nat, j: nat)
    requires i <= j <= |s| && ExponentAt(s, i, j) && (j < |s| ==> !DigitChar(s[j]))
    ensures ExponentEnd(s, i) == j
  {
    hide DigitsEnd;
    if DigitsAt(s, i + 1, j) {
      assert DigitChar(s[i + 1]);
      DigitsRead(s, i + 1, j);
    } else {
      DigitsRead(s, i + 2, j);
    }
  }

  lemma ExponentSpelled(s: string, i: nat)
    requires i <= |s|
    ensures ExponentEnd(s, i) == i || ExponentAt(s, i, ExponentEnd(s, i))
  {
  }

  lemma IntegerReads(s: string, i: nat, j: nat, n: int)
    requires i <= j <= |s| && IntegerAt(s, i, j, n) && Follow(s, j)
    ensures ParseNumber(s, i) == Read(Int(n), j)
  {
    hide IntegerEnd, FractionEnd, ExponentEnd, Decimal, NumeralAt;
    var start := if s[i] == '-' then i + 1 else i;
    assert WholeAt(s, start, j) && DigitChar(s[start]);
    WholeReads(s, start, j);
    NumeralReads(s, start, j, if start == i then n else -n);
    NoFraction(s, j);
    NoExponent(s, j);
  }

  lemma FloatReads(s: string, i: nat, j: nat)
    requires i <= j <= |s| && FloatAt(s, i, j) && Follow(s, j)
    ensures ParseNumber(s, i) == Read(Float, j)
  {
    hide IntegerEnd, FractionEnd, ExponentEnd, Decimal, ExponentAt, FractionAt;
    var a, b, c :|
      && i <= a < b <= c <= j && b < j && (a == i || (a == i + 1 && s[i] == '-')) && WholeAt(s, a, b)
      && (c == b || FractionAt(s, b, c)) && (j == c || ExponentAt(s, c, j));
    assert DigitChar(s[a]);
    FloatParts(s, a, b, c, j);
  }

  lemma FloatParts(s: string, a: nat, b: nat, c: nat, j: nat)
    requires a < b <= c <= j <= |s| && WholeAt(s, a, b) && Follow(s, j)
    requires (c == b || FractionAt(s, b, c)) && (j == c || ExponentAt(s, c, j))
    ensures IntegerEnd(s, a) == b && FractionEnd(s, b) == c && ExponentEnd(s, c) == j
  {
    hide IntegerEnd, FractionEnd, ExponentEnd, DigitsAt;
    if c == j {
      NoExponent(s, j);
    } else {
      ExponentReads(s, c, j);
    }
    if c == b {
      NoFraction(s, b);
    } else {
      FractionReads(s, b, c);
    }
    WholeReads(s, a, b);
  }

  lemma NumberSpelled(s: string, i: nat)
    requires i <= |s| && ParseNumber(s, i).Read?
    ensures var r := ParseNumber(s, i); ValueAt(s, i, r.end, r.value)
  {
    hide IntegerEnd, FractionEnd, ExponentEnd, Decimal, ExponentAt, FractionAt, NumeralAt;
    var start := if s[i] == '-' then i + 1 else i;
    var whole := IntegerEnd(s, start);
    WholeSpelled(s, start);
    FractionSpelled(s, whole);
    ExponentSpelled(s, FractionEnd(s, whole));
    DecimalNat(s[start..whole]);
    NumeralReads(s, start, whole, Decimal(s[start..whole]));
  }

  // ----- values: what is spelled is read -----

  lemma WhiteReads(s: string, i: nat, j: nat)
    requires i <= j <= |s| && WhiteAt(s, i, j) && (j < |s| ==> !White(s[j]))
    ensures SkipSpace(s, i) == j
    decreases j - i
  {
    if i < j {
      WhiteReads(s, i + 1, j);
    }
  }

  /** The first character of a value, and that there is one. */
  lemma ValueBegins(s: string, i: nat, j: nat, v: Value)
    requires i <= j <= |s| && ValueAt(s, i, j, v)
    ensures i < j && !White(s[i]) && s[i] != ']' && s[i] != '}'
    ensures v.Array? <==> s[i] == '['
    ensures v.Object? <==> s[i] == '{'
    ensures v.Str? <==> s[i] == '"'
  {
    hide ItemsAt, MembersAt, CharsAt, NumeralAt, ExponentAt, FractionAt;
    match v
    case Null => assert s[i] == s[i..j][0];
    case Bool(truth) => assert s[i] == s[i..j][0];
    case Int(n) => IntegerBegins(s, i, j, n);
    case Float => FloatBegins(s, i, j);
    case Str(text) =>
    case Array(items) =>
    case Object(members) =>
  }

  lemma IntegerBegins(s: string, i: nat, j: nat, n: int)
    requires i <= j <= |s| && IntegerAt(s, i, j, n)
    ensures i < j && (s[i] == '-' || DigitChar(s[i]))
  {
    hide NumeralAt;
  }

  lemma FloatBegins(s: string, i: nat, j: nat)
    requires i <= j <= |s| && FloatAt(s, i, j)
    ensures i < j && (s[i] == '-' || DigitChar(s[i]))
  {
    hide ExponentAt, FractionAt;
  }

  lemma NotAWord(s: string, i: nat)
    requires i < |s| && (s[i] == '-' || DigitChar(s[i]))
    ensures !Literally(s, i, "null") && !Literally(s, i, "true") && !Literally(s, i, "false")
  {
    if i + 4 <= |s| {
      assert s[i..i + 4][0] == s[i];
    }
    if i + 5 <= |s| {
      assert s[i..i + 5][0] == s[i];
    }
  }

  lemma WordReads(s: string, i: nat, j: nat, v: Value)
    requires i <= j <= |s| && ValueAt(s, i, j, v) && (v.Null? || v.Bool?)
    ensures ParseScalar(s, i) == Read(v, j)
  {
    hide ParseNumber, ParseString;
    assert s[i] == s[i..j][0];
    if i + 4 <= |s| {
      assert s[i..i + 4][0] == s[i];
    }
    if i + 5 <= |s| {
      assert s[i..i + 5][0] == s[i];
    }
  }

  lemma ScalarReads(s: string, i: nat, j: nat, v: Value)
    requires i <= j <= |s| && ValueAt(s, i, j, v) && !v.Array? && !v.Object? && Follow(s, j)
    ensures ParseScalar(s, i) == Read(v, j)
  {
    hide ParseNumber, ParseString, StringAt, IntegerAt, FloatAt;
    if v.Null? || v.Bool? {
      WordReads(s, i, j, v);
    } else if v.Str? {
      StringReads(s, i, j, v.text);
    } else if v.Int? {
      IntegerBegins(s, i, j, v.value);
      NotAWord(s, i);
      IntegerReads(s, i, j, v.value);
    } else {
      FloatBegins(s, i, j);
      NotAWord(s, i);
      FloatReads(s, i, j);
    }
  }

  /** A value that is spelled at `i`, with nothing behind it that could continue it, is what is read there. */
  lemma {:induction false} ValueReads(s: string, i: nat, j: nat, v: Value)
    requires i <= j <= |s| && ValueAt(s, i, j, v) && Follow(s, j)
    ensures ParseValue(s, i) == Read(v, j)
    decreases v, 0
  {
    hide ParseArray, ParseObject, ParseScalar, ItemsAt, MembersAt;
    ValueBegins(s, i, j, v);
    if v.Array? {
      ArrayReads(s, i, j, v.items);
    } else if v.Object? {
      ObjectReads(s, i, j, v.members);
    } else {
      ScalarReads(s, i, j, v);
    }
  }

  lemma {:induction false} ArrayReads(s: string, i: nat, j: nat, items: seq<Value>)
    requires i + 2 <= j <= |s| && s[i] == '[' && s[j - 1] == ']' && ItemsAt(s, i + 1, j - 1, items)
    ensures ParseArray(s, i) == Read(Array(items), j)
    decreases items, 3
  {
    hide ParseItems, SkipSpace;
    if items == [] {
      WhiteReads(s, i + 1, j - 1);
    } else {
      ItemsRead(s, i + 1, j - 1, items);
    }
  }

  lemma {:induction false} ObjectReads(s: string, i: nat, j: nat, members: seq<Member>)
    requires i + 2 <= j <= |s| && s[i] == '{' && s[j - 1] == '}' && MembersAt(s, i + 1, j - 1, members)
    ensures ParseObject(s, i) == Read(Object(members), j)
    decreases members, 3
  {
    hide ParseMembers, SkipSpace;
    if members == [] {
      WhiteReads(s, i + 1, j - 1);
    } else {
      MembersRead(s, i + 1, j - 1, members);
    }
  }

  /** A value with white space around it is read from its first character on, and the space behind it skipped. */
  lemma {:induction false} ElementReads(s: string, i: nat, j: nat, v: Value)
    requires i <= j <= |s| && ElementAt(s, i, j, v) && Follow(s, j) && (j < |s| ==> !White(s[j]))
    ensures var a := SkipSpace(s, i);
      && a < j && s[a] != ']' && s[a] != '}'
      && ParseValue(s, a).Read? && ParseValue(s, a).value == v && SkipSpace(s, ParseValue(s, a).end) == j
    decreases v, 1
  {
    hide ValueAt, ParseValue, SkipSpace;
    var a, b :| i <= a <= b <= j && WhiteAt(s, i, a) && ValueAt(s, a, b, v) && WhiteAt(s, b, j);
    ValueBegins(s, a, b, v);
    WhiteReads(s, i, a);
    WhiteReads(s, b, j);
    assert Follow(s, b);
    ValueReads(s, a, b, v);
  }

  lemma ItemsOnward(s: string, a: nat)
    requires a <= |s| && ParseValue(s, a).Read?
    ensures var v := ParseValue(s, a).value; var next := SkipSpace(s, ParseValue(s, a).end);
      next < |s| ==>
        && (s[next] == ']' ==> ParseItems(s, a) == Read([v], next + 1))
        && (s[next] == ',' ==>
              var rest := ParseItems(s, SkipSpace(s, next + 1));
              rest.Read? ==> ParseItems(s, a) == Read([v] + rest.value, rest.end))
  {
    hide ParseValue, SkipSpace;
  }

  lemma MembersOnward(s: string, a: nat)
    requires a <= |s| && ParseMember(s, a).Read?
    ensures var m := ParseMember(s, a).value; var next := ParseMember(s, a).end;
      next < |s| ==>
        && (s[next] == '}' ==> ParseMembers(s, a) == Read([m], next + 1))
        && (s[next] == ',' ==>
              var rest := ParseMembers(s, SkipSpace(s, next + 1));
              rest.Read? ==> ParseMembers(s, a) == Read([m] + rest.value, rest.end))
  {
    hide ParseMember, SkipSpace;
  }

  lemma {:induction false} ItemsRead(s: string, i: nat, j: nat, items: seq<Value>)
    requires i <= j < |s| && s[j] == ']' && items != [] && ItemsAt(s, i, j, items)
    ensures var a := SkipSpace(s, i); a < |s| && s[a] != ']' && ParseItems(s, a) == Read(items, j + 1)
    decreases items, 2
  {
    hide ElementAt, ParseValue, ParseItems, SkipSpace;
    var a := SkipSpace(s, i);
    if |items| == 1 {
      ElementReads(s, i, j, items[0]);
      ItemsOnward(s, a);
      assert items == [items[0]];
    } else {
      var k :| i <= k < j && s[k] == ',' && ElementAt(s, i, k, items[0]) && ItemsAt(s, k + 1, j, items[1..]);
      ElementReads(s, i, k, items[0]);
      ItemsRead(s, k + 1, j, items[1..]);
      ItemsOnward(s, a);
      assert items == [items[0]] + items[1..];
    }
  }

  lemma {:induction false} MemberReads(s: string, i: nat, j: nat, m: Member)
    requires i <= j < |s| && MemberAt(s, i, j, m) && (s[j] == ',' || s[j] == '}')
    ensures var a := SkipSpace(s, i); a < j && s[a] != '}' && ParseMember(s, a) == Read(m, j)
    decreases m, 2
  {
    hide ElementAt, ParseValue, SkipSpace, StringAt, ParseString;
    var a, b, k :|
      && i <= a <= b <= k < j && WhiteAt(s, i, a) && StringAt(s, a, b, m.key) && WhiteAt(s, b, k) && s[k] == ':'
      && ElementAt(s, k + 1, j, m.value);
    hide WhiteAt, ParseMember;
    StringReads(s, a, b, m.key);
    StringBegins(s, a, b, m.key);
    WhiteReads(s, i, a);
    WhiteReads(s, b, k);
    ElementReads(s, k + 1, j, m.value);
    MemberOnward(s, a, k);
  }

  lemma MemberOnward(s: string, a: nat, k: nat)
    requires a <= |s| && ParseString(s, a).Read? && SkipSpace(s, ParseString(s, a).end) == k < |s| && s[k] == ':'
    requires ParseValue(s, SkipSpace(s, k + 1)).Read?
    ensures var r := ParseValue(s, SkipSpace(s, k + 1));
      ParseMember(s, a) == Read(Member(ParseString(s, a).value, r.value), SkipSpace(s, r.end))
  {
    hide ParseString, ParseValue, SkipSpace;
  }

  lemma StringBegins(s: string, i: nat, j: nat, units: Units)
    requires i <= j <= |s| && StringAt(s, i, j, units)
    ensures i < j && s[i] == '"'
  {
    hide CharsAt;
  }

  lemma {:induction false} MembersRead(s: string, i: nat, j: nat, members: seq<Member>)
    requires i <= j < |s| && s[j] == '}' && members != [] && MembersAt(s, i, j, members)
    ensures var a := SkipSpace(s, i); a < |s| && s[a] != '}' && ParseMembers(s, a) == Read(members, j + 1)
    decreases members, 2
  {
    hide MemberAt, ParseMember, ParseMembers, SkipSpace;
    var a := SkipSpace(s, i);
    if |members| == 1 {
      MemberReads(s, i, j, members[0]);
      MembersOnward(s, a);
      assert members == [members[0]];
    } else {
      var k :| i <= k < j && s[k] == ',' && MemberAt(s, i, k, members[0]) && MembersAt(s, k + 1, j, members[1..]);
      MemberReads(s, i, k, members[0]);
      MembersRead(s, k + 1, j, members[1..]);
      MembersOnward(s, a);
      assert members == [members[0]] + members[1..];
    }
  }

  // ----- values: what is read is spelled -----

  lemma SkippedIsWhite(s: string, i: nat)
    requires i <= |s|
    ensures WhiteAt(s, i, SkipSpace(s, i))
  {
  }

  lemma {:induction false} ValueSpelled(s: string, i: nat)
    requires i <= |s| && ParseValue(s, i).Read?
    ensures var r := ParseValue(s, i); ValueAt(s, i, r.end, r.value)
    decreases |s| - i, 1
  {
    if s[i] == '[' {
      hide ParseArray, ItemsAt;
      ArraySpelled(s, i);
    } else if s[i] == '{' {
      hide ParseObject, MembersAt;
      ObjectSpelled(s, i);
    } else {
      hide ParseScalar, ValueAt;
      ScalarSpelled(s, i);
    }
  }

  lemma ScalarSpelled(s: string, i: nat)
    requires i <= |s| && ParseScalar(s, i).Read?
    ensures var r := ParseScalar(s, i); ValueAt(s, i, r.end, r.value)
  {
    hide ParseNumber, ParseString, StringAt, IntegerAt, FloatAt;
    if s[i] == '"' {
      StringSpelled(s, i);
    } else if !Literally(s, i, "null") && !Literally(s, i, "true") && !Literally(s, i, "false") {
      NumberSpelled(s, i);
    }
  }

  lemma {:induction false} ArraySpelled(s: string, i: nat)
    requires i < |s| && s[i] == '[' && ParseArray(s, i).Read?
    ensures var r := ParseArray(s, i); ValueAt(s, i, r.end, r.value)
    decreases |s| - i, 0
  {
    hide ParseItems, SkipSpace;
    var first := SkipSpace(s, i + 1);
    SkippedIsWhite(s, i + 1);
    if s[first] != ']' {
      hide ItemsAt;
      ItemsSpelled(s, i + 1, first);
    }
  }

  lemma {:induction false} ObjectSpelled(s: string, i: nat)
    requires i < |s| && s[i] == '{' && ParseObject(s, i).Read?
    ensures var r := ParseObject(s, i); ValueAt(s, i, r.end, r.value)
    decreases |s| - i, 0
  {
    hide ParseMembers, SkipSpace;
    var first := SkipSpace(s, i + 1);
    SkippedIsWhite(s, i + 1);
    if s[first] != '}' {
      hide MembersAt;
      MembersSpelled(s, i + 1, first);
    }
  }

  /** A value that is read behind white space, up to a position with only white space in between. */
  lemma {:induction false} ElementSpelled(s: string, h: nat, i: nat, j: nat)
    requires h <= i <= |s| && WhiteAt(s, h, i) && ParseValue(s, i).Read? && j == SkipSpace(s, ParseValue(s, i).end)
    ensures ElementAt(s, h, j, ParseValue(s, i).value)
    decreases |s| - i, 2
  {
    hide ParseValue, ValueAt, SkipSpace;
    ValueSpelled(s, i);
    SkippedIsWhite(s, ParseValue(s, i).end);
  }

  lemma {:induction false} ItemsSpelled(s: string, h: nat, i: nat)
    requires h <= i <= |s| && WhiteAt(s, h, i) && ParseItems(s, i).Read?
    ensures var r := ParseItems(s, i); s[r.end - 1] == ']' && ItemsAt(s, h, r.end - 1, r.value)
    decreases |s| - i, 3
  {
    hide ParseItems, ParseValue, SkipSpace, ElementAt;
    ItemsShape(s, i);
    var item := ParseValue(s, i);
    var next := SkipSpace(s, item.end);
    ElementSpelled(s, h, i, next);
    if s[next] == ',' {
      var after := SkipSpace(s, next + 1);
      SkippedIsWhite(s, next + 1);
      ItemsSpelled(s, next + 1, after);
      var rest := ParseItems(s, after).value;
      assert ([item.value] + rest)[1..] == rest;
    }
  }

  lemma {:induction false} MemberSpelled(s: string, h: nat, i: nat)
    requires h <= i <= |s| && WhiteAt(s, h, i) && ParseMember(s, i).Read?
    ensures var r := ParseMember(s, i); MemberAt(s, h, r.end, r.value)
    decreases |s| - i, 3
  {
    hide ParseValue, ParseString, SkipSpace, ElementAt, StringAt;
    var end := ParseString(s, i).end;
    var colon := SkipSpace(s, end);
    var start := SkipSpace(s, colon + 1);
    StringSpelled(s, i);
    SkippedIsWhite(s, end);
    SkippedIsWhite(s, colon + 1);
    ElementSpelled(s, colon + 1, start, ParseMember(s, i).end);
  }

  lemma {:induction false} MembersSpelled(s: string, h: nat, i: nat)
    requires h <= i <= |s| && WhiteAt(s, h, i) && ParseMembers(s, i).Read?
    ensures var r := ParseMembers(s, i); s[r.end - 1] == '}' && MembersAt(s, h, r.end - 1, r.value)
    decreases |s| - i, 4
  {
    hide ParseMembers, ParseMember, SkipSpace, MemberAt;
    MembersShape(s, i);
    var member := ParseMember(s, i);
    MemberSpelled(s, h, i);
    if s[member.end] == ',' {
      var after := SkipSpace(s, member.end + 1);
      SkippedIsWhite(s, member.end + 1);
      MembersSpelled(s, member.end + 1, after);
      var rest := ParseMembers(s, after).value;
      assert ([member.value] + rest)[1..] == rest;
    }
  }

  // ----- whole texts -----

  /** The reader gives a value for a text exactly when the text spells it, for every text and every value. */
  lemma ReadsExactlyJson(text: string, v: Value)
    ensures ParseText(text) == Some(v) <==> Denotes(text, v)
  {
    hide ElementAt, ParseValue, SkipSpace;
    if Denotes(text, v) {
      ElementReads(text, 0, |text|, v);
    }
    if ParseText(text) == Some(v) {
      SkippedIsWhite(text, 0);
      ElementSpelled(text, 0, SkipSpace(text, 0), |text|);
    }
  }

  /** Strict loading accepts exactly the texts of values in which no object repeats a key. */
  lemma LoadsExactlyStrictJson(text: string, v: Value)
    ensures StrictLoads(text) == Some(v) <==> Denotes(text, v) && Unambiguous(v)
  {
    hide Denotes, ParseText, Unambiguous;
    ReadsExactlyJson(text, v);
  }

  /** A text spells at most one value. */
  lemma SpellsOnce(text: string, v: Value, w: Value)
    requires Denotes(text, v) && Denotes(text, w)
    ensures v == w
  {
    hide Denotes, ParseText;
    ReadsExactlyJson(text, v);
    ReadsExactlyJson(text, w);
  }
}
