/**
 The iterative nesting check that guards the request parser. It looks at bytes only, so the
 question is whether brackets inside strings, quotes behind backslashes and multi-byte
 characters can ever make it disagree with the nesting of the value the text denotes.
 */
module JsonDepth {
  import opened Bytes
  import opened Basics
  import opened Json

  const MAX_JSON_DEPTH := 64
  const QUOTE := 0x22
  const BACKSLASH := 0x5C

  predicate Opening(b: int) {
    b == 0x7B || b == 0x5B
  }

  predicate Closing(b: int) {
    b == 0x7D || b == 0x5D
  }

  // ----- the scan -----

  /** Where the scan stands, and the highest and lowest depth it has passed through. */
  datatype State = State(depth: int, inString: bool, escaped: bool, peak: int, low: int)

  function Outside(depth: int, peak: int, low: int): State {
    State(depth, false, false, peak, low)
  }

  function Inside(depth: int, peak: int, low: int): State {
    State(depth, true, false, peak, low)
  }

  function Step(st: State, b: int): State {
    if st.inString then
      if st.escaped then st.(escaped := false)
      else if b == BACKSLASH then st.(escaped := true)
      else if b == QUOTE then st.(inString := false)
      else st
    else if b == QUOTE then st.(inString := true)
    else if Opening(b) then st.(depth := st.depth + 1, peak := Max(st.peak, st.depth + 1))
    else if Closing(b) then st.(depth := st.depth - 1, low := Min(st.low, st.depth - 1))
    else st
  }

  /** The scan of everything from position `i` on. */
  function Run(codes: seq<int>, i: nat, st: State): State
    requires i <= |codes|
    decreases |codes| - i
  {
    if i == |codes| then st else Run(codes, i + 1, Step(st, codes[i]))
  }

  /** The peak never falls, the low never rises, and both bracket the depth. */
  lemma {:induction false} RunExtremes(codes: seq<int>, i: nat, st: State)
    requires i <= |codes| && st.low <= st.depth <= st.peak
    ensures var end := Run(codes, i, st); st.peak <= end.peak && end.low <= st.low && end.low <= end.depth <= end.peak
    decreases |codes| - i
  {
    if i < |codes| {
      RunExtremes(codes, i + 1, Step(st, codes[i]));
    }
  }

  method ExceedsMaxJsonDepth(rawBody: seq<Byte>) returns (exceeds: bool)
    ensures exceeds <==> Run(rawBody, 0, Outside(0, 0, 0)).peak > MAX_JSON_DEPTH
  {
    var depth := 0;
    var inString := false;
    var escaped := false;
    ghost var st := Outside(0, 0, 0);
    for i := 0 to |rawBody|
      invariant st.depth == depth && st.inString == inString && st.escaped == escaped
      invariant st.low <= st.depth <= st.peak <= MAX_JSON_DEPTH
      invariant Run(rawBody, 0, Outside(0, 0, 0)) == Run(rawBody, i, st)
    {
      var byte := rawBody[i];
      st := Step(st, byte);
      if inString {
        if escaped {
          escaped := false;
        } else if byte == BACKSLASH {
          escaped := true;
        } else if byte == QUOTE {
          inString := false;
        }
      } else if byte == QUOTE {
        inString := true;
      } else if Opening(byte) {
        depth := depth + 1;
        if depth > MAX_JSON_DEPTH {
          RunExtremes(rawBody, i + 1, st);
          return true;
        }
      } else if Closing(byte) {
        depth := depth - 1;
      }
    }
    return false;
  }

  // ----- the nesting of a value -----

  /** How many containers enclose the most deeply enclosed point of the value. */
  function Nesting(v: Value): nat
    decreases v, 0
  {
    match v
    case Array(items) => 1 + ItemsNesting(items)
    case Object(members) => 1 + MembersNesting(members)
    case _ => 0
  }

  function ItemsNesting(items: seq<Value>): nat
    decreases items, 1
  {
    if items == [] then 0 else Max(Nesting(items[0]), ItemsNesting(items[1..]))
  }

  function MembersNesting(members: seq<Member>): nat
    decreases members, 1
  {
    if members == [] then 0 else Max(Nesting(members[0].value), MembersNesting(members[1..]))
  }

  // ----- the scan over the characters of a text -----

  /** The codes of the text, or of its beginning. */
  ghost predicate CodesOf(codes: seq<int>, s: string) {
    |codes| <= |s| && forall k :: 0 <= k < |codes| ==> codes[k] == s[k] as int
  }

  lemma {:induction false} PlainSpan(s: string, codes: seq<int>, i: nat, j: nat, st: State)
    requires CodesOf(codes, s) && i <= j <= |codes| && !st.inString
    requires forall k :: i <= k < j ==> !Structural(s[k])
    ensures Run(codes, i, st) == Run(codes, j, st)
    decreases j - i
  {
    if i < j {
      assert !Structural(s[i]);
      PlainSpan(s, codes, i + 1, j, st);
    }
  }

  lemma {:induction false} StringSpan(s: string, codes: seq<int>, i: nat, d: int, p: int, l: int)
    requires CodesOf(codes, s) && i <= |s| && StringBody(s, i).Read? && StringBody(s, i).end <= |codes|
    ensures Run(codes, i, Inside(d, p, l)) == Run(codes, StringBody(s, i).end, Outside(d, p, l))
    decreases |s| - i
  {
    if s[i] == '"' {
    } else if s[i] == '\\' {
      assert Run(codes, i, Inside(d, p, l)) == Run(codes, i + 2, Inside(d, p, l));
      if s[i + 1] == 'u' {
        HexSpan(s, codes, i + 2, Inside(d, p, l));
        StringSpan(s, codes, i + 6, d, p, l);
      } else {
        StringSpan(s, codes, i + 2, d, p, l);
      }
    } else {
      StringSpan(s, codes, i + 1, d, p, l);
    }
  }

  lemma HexSpan(s: string, codes: seq<int>, i: nat, st: State)
    requires CodesOf(codes, s) && Hex4At(s, i) && i + 4 <= |codes| && st.inString && !st.escaped
    ensures Run(codes, i, st) == Run(codes, i + 4, st)
  {
    assert Run(codes, i, st) == Run(codes, i + 1, st);
    assert Run(codes, i + 1, st) == Run(codes, i + 2, st);
    assert Run(codes, i + 2, st) == Run(codes, i + 3, st);
  }

  lemma WordSpan(s: string, codes: seq<int>, i: nat, word: string, st: State)
    requires CodesOf(codes, s) && Literally(s, i, word) && i + |word| <= |codes| && !st.inString
    requires forall c :: c in word ==> !Structural(c)
    ensures Run(codes, i, st) == Run(codes, i + |word|, st)
  {
    forall k | i <= k < i + |word| ensures !Structural(s[k]) {
      assert s[k] == s[i..i + |word|][k - i] == word[k - i];
    }
    PlainSpan(s, codes, i, i + |word|, st);
  }

  lemma PlainWords()
    ensures forall c :: c in "null" || c in "true" || c in "false" ==> !Structural(c)
  {
  }

  lemma QuotedSpan(s: string, codes: seq<int>, i: nat, d: int, p: int, l: int)
    requires CodesOf(codes, s) && i <= |s| && ParseString(s, i).Read? && ParseString(s, i).end <= |codes|
    ensures Run(codes, i, Outside(d, p, l)) == Run(codes, ParseString(s, i).end, Outside(d, p, l))
  {
    StringSpan(s, codes, i + 1, d, p, l);
  }

  lemma ScalarSpan(s: string, codes: seq<int>, i: nat, d: int, p: int, l: int)
    requires CodesOf(codes, s) && i <= |s| && ParseScalar(s, i).Read? && ParseScalar(s, i).end <= |codes|
    ensures Run(codes, i, Outside(d, p, l)) == Run(codes, ParseScalar(s, i).end, Outside(d, p, l))
  {
    hide Run, ParseNumber, StringBody;
    PlainWords();
    if s[i] == '"' {
      QuotedSpan(s, codes, i, d, p, l);
    } else if Literally(s, i, "null") {
      WordSpan(s, codes, i, "null", Outside(d, p, l));
    } else if Literally(s, i, "true") {
      WordSpan(s, codes, i, "true", Outside(d, p, l));
    } else if Literally(s, i, "false") {
      WordSpan(s, codes, i, "false", Outside(d, p, l));
    } else {
      PlainSpan(s, codes, i, ParseNumber(s, i).end, Outside(d, p, l));
    }
  }

  /**
   Over the text of one value the scan comes back to the depth it started from, never goes
   below it, and peaks at the value's nesting above it.
   */
  lemma {:induction false} ValueSpan(s: string, codes: seq<int>, i: nat, d: int, p: int, l: int)
    requires CodesOf(codes, s) && i <= |s| && ParseValue(s, i).Read? && l <= d <= p
    requires ParseValue(s, i).end <= |codes|
    ensures var r := ParseValue(s, i);
      Run(codes, i, Outside(d, p, l)) == Run(codes, r.end, Outside(d, Max(p, d + Nesting(r.value)), l))
    decreases |s| - i, 1
  {
    hide ParseArray, ParseObject, ParseScalar, Run;
    if s[i] == '[' {
      ArraySpan(s, codes, i, d, p, l);
    } else if s[i] == '{' {
      ObjectSpan(s, codes, i, d, p, l);
    } else {
      ScalarSpan(s, codes, i, d, p, l);
    }
  }

  lemma {:induction false} ArraySpan(s: string, codes: seq<int>, i: nat, d: int, p: int, l: int)
    requires CodesOf(codes, s) && i < |s| && s[i] == '[' && ParseArray(s, i).Read? && l <= d <= p
    requires ParseArray(s, i).end <= |codes|
    ensures var r := ParseArray(s, i);
      Run(codes, i, Outside(d, p, l)) == Run(codes, r.end, Outside(d, Max(p, d + Nesting(r.value)), l))
    decreases |s| - i, 0
  {
    hide ParseItems;
    var first := SkipSpace(s, i + 1);
    PlainSpan(s, codes, i + 1, first, Outside(d + 1, Max(p, d + 1), l));
    if s[first] != ']' {
      ItemsSpan(s, codes, first, d + 1, Max(p, d + 1), l);
    }
  }

  lemma {:induction false} ObjectSpan(s: string, codes: seq<int>, i: nat, d: int, p: int, l: int)
    requires CodesOf(codes, s) && i < |s| && s[i] == '{' && ParseObject(s, i).Read? && l <= d <= p
    requires ParseObject(s, i).end <= |codes|
    ensures var r := ParseObject(s, i);
      Run(codes, i, Outside(d, p, l)) == Run(codes, r.end, Outside(d, Max(p, d + Nesting(r.value)), l))
    decreases |s| - i, 0
  {
    hide ParseMembers;
    var first := SkipSpace(s, i + 1);
    PlainSpan(s, codes, i + 1, first, Outside(d + 1, Max(p, d + 1), l));
    if s[first] != '}' {
      MembersSpan(s, codes, first, d + 1, Max(p, d + 1), l);
    }
  }

  lemma {:induction false} ItemsSpan(s: string, codes: seq<int>, i: nat, d: int, p: int, l: int)
    requires CodesOf(codes, s) && i <= |s| && ParseItems(s, i).Read? && l <= d <= p
    requires ParseItems(s, i).end <= |codes| + 1
    ensures var r := ParseItems(s, i);
      && s[r.end - 1] == ']'
      && Run(codes, i, Outside(d, p, l)) == Run(codes, r.end - 1, Outside(d, Max(p, d + ItemsNesting(r.value)), l))
    decreases |s| - i, 2
  {
    hide ParseItems, ParseValue, Nesting, ItemsNesting, Run;
    ItemsShape(s, i);
    var item := ParseValue(s, i);
    var peak := Max(p, d + Nesting(item.value));
    ValueSpan(s, codes, i, d, p, l);
    var next := SkipSpace(s, item.end);
    PlainSpan(s, codes, item.end, next, Outside(d, peak, l));
    if s[next] == ',' {
      var after := SkipSpace(s, next + 1);
      PlainSpan(s, codes, next, after, Outside(d, peak, l));
      ItemsSpan(s, codes, after, d, peak, l);
      ItemsNestingStep(item.value, ParseItems(s, after).value);
    } else {
      ItemsNestingStep(item.value, []);
      assert [item.value] + [] == [item.value];
    }
  }

  lemma ItemsNestingStep(item: Value, rest: seq<Value>)
    ensures ItemsNesting([item] + rest) == Max(Nesting(item), ItemsNesting(rest))
    ensures ItemsNesting([]) == 0
  {
    assert ([item] + rest)[1..] == rest;
  }

  lemma MembersNestingStep(member: Member, rest: seq<Member>)
    ensures MembersNesting([member] + rest) == Max(Nesting(member.value), MembersNesting(rest))
    ensures MembersNesting([]) == 0
  {
    assert ([member] + rest)[1..] == rest;
  }

  lemma {:induction false} MembersSpan(s: string, codes: seq<int>, i: nat, d: int, p: int, l: int)
    requires CodesOf(codes, s) && i <= |s| && ParseMembers(s, i).Read? && l <= d <= p
    requires ParseMembers(s, i).end <= |codes| + 1
    ensures var r := ParseMembers(s, i);
      && s[r.end - 1] == '}'
      && Run(codes, i, Outside(d, p, l)) == Run(codes, r.end - 1, Outside(d, Max(p, d + MembersNesting(r.value)), l))
    decreases |s| - i, 3
  {
    hide ParseMembers, ParseMember, Nesting, MembersNesting, Run;
    MembersShape(s, i);
    var member := ParseMember(s, i);
    var peak := Max(p, d + Nesting(member.value.value));
    MemberSpan(s, codes, i, d, p, l);
    var next := member.end;
    if s[next] == ',' {
      var after := SkipSpace(s, next + 1);
      PlainSpan(s, codes, next, after, Outside(d, peak, l));
      MembersSpan(s, codes, after, d, peak, l);
      MembersNestingStep(member.value, ParseMembers(s, after).value);
    } else {
      MembersNestingStep(member.value, []);
      assert [member.value] + [] == [member.value];
    }
  }

  lemma {:induction false} MemberSpan(s: string, codes: seq<int>, i: nat, d: int, p: int, l: int)
    requires CodesOf(codes, s) && i <= |s| && ParseMember(s, i).Read? && l <= d <= p
    requires ParseMember(s, i).end <= |codes|
    ensures var r := ParseMember(s, i);
      Run(codes, i, Outside(d, p, l)) == Run(codes, r.end, Outside(d, Max(p, d + Nesting(r.value.value)), l))
    decreases |s| - i, 2
  {
    hide ParseValue, ParseString, Run, Nesting, Max;
    var key := ParseString(s, i);
    QuotedSpan(s, codes, i, d, p, l);
    var colon := SkipSpace(s, key.end);
    var start := SkipSpace(s, colon + 1);
    PlainSpan(s, codes, key.end, start, Outside(d, p, l));
    ValueSpan(s, codes, start, d, p, l);
    var value := ParseValue(s, start);
    PlainSpan(s, codes, value.end, SkipSpace(s, value.end), Outside(d, Max(p, d + Nesting(value.value)), l));
  }

  // ----- the scan over the UTF-8 bytes of a text -----

  /** The UTF-8 bytes of one character (RFC 3629 section 3). */
  function Utf8Bytes(c: char): (bytes: seq<Byte>)
    ensures c as int < 0x80 ==> bytes == [c as int]
    ensures c as int >= 0x80 ==> 2 <= |bytes| <= 4 && forall b :: b in bytes ==> b >= 0x80
  {
    var code := c as int;
    if code < 0x80 then [code]
    else if code < 0x800 then [0xC0 + code / 0x40, 0x80 + code % 0x40]
    else if code < 0x1_0000 then [0xE0 + code / 0x1000, 0x80 + code / 0x40 % 0x40, 0x80 + code % 0x40]
    else [0xF0 + code / 0x4_0000, 0x80 + code / 0x1000 % 0x40, 0x80 + code / 0x40 % 0x40, 0x80 + code % 0x40]
  }

  predicate Tail(b: int) {
    0x80 <= b < 0xC0
  }

  /** The shortest form of a character, and the only one, that gives its code back. */
  lemma Utf8Form(c: char)
    ensures var b: seq<int> := Utf8Bytes(c); var code := c as int;
      || (|b| == 1 && code == b[0] < 0x80)
      || (|b| == 2 && code >= 0x80 && 0xC0 <= b[0] < 0xE0 && Tail(b[1]) && code == (b[0] - 0xC0) * 0x40 + (b[1] - 0x80))
      || (|b| == 3 && code >= 0x800 && 0xE0 <= b[0] < 0xF0 && Tail(b[1]) && Tail(b[2])
          && code == ((b[0] - 0xE0) * 0x40 + (b[1] - 0x80)) * 0x40 + (b[2] - 0x80))
      || (|b| == 4 && code >= 0x1_0000 && 0xF0 <= b[0] < 0xF8 && Tail(b[1]) && Tail(b[2]) && Tail(b[3])
          && code == (((b[0] - 0xF0) * 0x40 + (b[1] - 0x80)) * 0x40 + (b[2] - 0x80)) * 0x40 + (b[3] - 0x80))
  {
    var code := c as int;
    SixBits(code);
    SixBits(code / 0x40);
    SixBits(code / 0x1000);
    assert code / 0x1000 == code / 0x40 / 0x40 && code / 0x4_0000 == code / 0x1000 / 0x40;
  }

  lemma SixBits(n: int)
    requires n >= 0
    ensures n == n / 0x40 * 0x40 + n % 0x40 && 0 <= n % 0x40 < 0x40
  {
  }

  function Utf8From(s: string, i: nat): seq<Byte>
    requires i <= |s|
    decreases |s| - i
  {
    if i == |s| then [] else Utf8Bytes(s[i]) + Utf8From(s, i + 1)
  }

  lemma {:induction false} HighBytesSpan(raw: seq<Byte>, b: nat, end: nat, st: State)
    requires b <= end <= |raw| && forall k :: b <= k < end ==> raw[k] >= 0x80
    requires !st.escaped
    ensures Run(raw, b, st) == Run(raw, end, st)
    decreases end - b
  {
    if b < end {
      assert Step(st, raw[b]) == st;
      HighBytesSpan(raw, b + 1, end, st);
    }
  }

  /** The bytes of one character take the scan where the character itself would. */
  lemma CharSpan(s: string, i: nat, raw: seq<Byte>, b: nat, st: State)
    requires i < |s| && b <= |raw| && raw[b..] == Utf8From(s, i)
    requires st.escaped ==> st.inString
    ensures var next := b + |Utf8Bytes(s[i])|; var after := Step(st, s[i] as int);
      && b < next <= |raw| && raw[next..] == Utf8From(s, i + 1)
      && (after.escaped ==> after.inString)
      && Run(raw, b, st) == Run(raw, next, after)
  {
    hide Utf8Bytes, Step;
    var bytes := Utf8Bytes(s[i]);
    var next := b + |bytes|;
    TailSplit(raw, b, bytes, Utf8From(s, i + 1));
    var after := Step(st, s[i] as int);
    StepEscapes(st, s[i] as int);
    if s[i] as int < 0x80 {
      assert raw[b] == s[i] as int;
    } else {
      forall k | b <= k < next ensures raw[k] >= 0x80 {
        assert bytes[k - b] in bytes;
      }
      HighStep(st, s[i] as int, raw[b]);
      HighBytesSpan(raw, b + 1, next, after);
    }
  }

  lemma TailSplit(raw: seq<Byte>, b: nat, bytes: seq<Byte>, rest: seq<Byte>)
    requires b <= |raw| && raw[b..] == bytes + rest
    ensures b + |bytes| <= |raw| && raw[b + |bytes|..] == rest
    ensures forall k :: b <= k < b + |bytes| ==> raw[k] == bytes[k - b]
  {
    assert |raw[b..]| == |bytes| + |rest|;
    assert raw[b + |bytes|..] == raw[b..][|bytes|..];
    assert forall k :: b <= k < b + |bytes| ==> raw[k] == raw[b..][k - b];
  }

  lemma StepEscapes(st: State, b: int)
    requires st.escaped ==> st.inString
    ensures Step(st, b).escaped ==> Step(st, b).inString
  {
  }

  /** No code above 0x7F is anything to the scan. */
  lemma HighStep(st: State, x: int, y: int)
    requires x >= 0x80 && y >= 0x80 && (st.escaped ==> st.inString)
    ensures Step(st, x) == Step(st, y) && !Step(st, x).escaped
  {
  }

  /** Encoding a text as UTF-8 does not change what the scan answers. */
  lemma {:induction false} Utf8Transparent(s: string, codes: seq<int>, i: nat, raw: seq<Byte>, b: nat, st: State)
    requires CodesOf(codes, s) && i <= |s| == |codes| && b <= |raw| && raw[b..] == Utf8From(s, i)
    requires st.escaped ==> st.inString
    ensures Run(raw, b, st) == Run(codes, i, st)
    decreases |s| - i
  {
    hide Utf8Bytes;
    if i < |s| {
      CharSpan(s, i, raw, b, st);
      Utf8Transparent(s, codes, i + 1, raw, b + |Utf8Bytes(s[i])|, Step(st, codes[i]));
    }
  }

  const BYTE_ORDER_MARK: seq<Byte> := [0xEF, 0xBB, 0xBF]

  /** The bytes are the text in UTF-8, with or without a byte-order mark in front (RFC 3629 section 6). */
  predicate IsUtf8(raw: seq<Byte>, s: string) {
    raw == Utf8From(s, 0) || raw == BYTE_ORDER_MARK + Utf8From(s, 0)
  }

  /** For every JSON text, the byte scan refuses exactly when the value nests deeper than the limit. */
  lemma ScanAgreesWithNesting(s: string, raw: seq<Byte>)
    requires ParseText(s).Some? && IsUtf8(raw, s)
    ensures Run(raw, 0, Outside(0, 0, 0)).peak > MAX_JSON_DEPTH
      <==> Nesting(ParseText(s).value) > 64
  {
    hide ParseText, Run, Utf8From;
    var codes := seq(|s|, k requires 0 <= k < |s| => s[k] as int);
    assert CodesOf(codes, s);
    TextSpan(s, codes);
    if raw == Utf8From(s, 0) {
      assert raw[0..] == raw;
      Utf8Transparent(s, codes, 0, raw, 0, Outside(0, 0, 0));
    } else {
      assert raw[3..] == Utf8From(s, 0);
      HighBytesSpan(raw, 0, 3, Outside(0, 0, 0));
      Utf8Transparent(s, codes, 0, raw, 3, Outside(0, 0, 0));
    }
  }

  lemma TextSpan(s: string, codes: seq<int>)
    requires CodesOf(codes, s) && |codes| == |s| && ParseText(s).Some?
    ensures Run(codes, 0, Outside(0, 0, 0)) == Outside(0, Nesting(ParseText(s).value), 0)
  {
    hide ParseValue;
    var start := SkipSpace(s, 0);
    PlainSpan(s, codes, 0, start, Outside(0, 0, 0));
    ValueSpan(s, codes, start, 0, 0, 0);
    var r := ParseValue(s, start);
    PlainSpan(s, codes, r.end, |s|, Outside(0, Nesting(r.value), 0));
  }

  // ----- truncation -----

  lemma {:induction false} RunPrefix(codes: seq<int>, k: nat, i: nat, st: State)
    requires i <= k <= |codes|
    ensures Run(codes, i, st) == Run(codes, k, Run(codes[..k], i, st))
    decreases k - i
  {
    if i < k {
      RunPrefix(codes, k, i + 1, Step(st, codes[i]));
    }
  }

  /** The low changes nothing else in the scan. */
  lemma {:induction false} LowIsApart(codes: seq<int>, i: nat, st: State, low: int)
    requires i <= |codes|
    ensures Run(codes, i, st).depth == Run(codes, i, st.(low := low)).depth
    decreases |codes| - i
  {
    if i < |codes| {
      var next := Step(st, codes[i]);
      LowIsApart(codes, i + 1, next, Step(st.(low := low), codes[i]).low);
    }
  }

  /** Between its first and its last character an object never leaves its own braces. */
  lemma ObjectInterior(s: string, codes: seq<int>)
    requires |s| > 0 && s[0] == '{' && ParseObject(s, 0).Read? && ParseObject(s, 0).end == |s|
    requires CodesOf(codes, s) && |codes| == |s| - 1
    ensures Run(codes, 1, Outside(1, 1, 1)).low == 1
  {
    hide ParseMembers;
    var first := SkipSpace(s, 1);
    PlainSpan(s, codes, 1, first, Outside(1, 1, 1));
    if s[first] != '}' {
      MembersSpan(s, codes, first, 1, 1, 1);
    }
  }

  /** No text that ends inside the root object is a JSON text. */
  lemma ObjectPrefixIsNoText(s: string, k: nat)
    requires |s| > 0 && s[0] == '{' && ParseObject(s, 0).Read? && ParseObject(s, 0).end == |s|
    requires k < |s|
    ensures ParseText(s[..k]).None?
  {
    hide ParseValue, ParseObject;
    if k > 0 && ParseText(s[..k]).Some? {
      var codes := seq(|s| - 1, n requires 0 <= n < |s| - 1 => s[n] as int);
      assert CodesOf(codes, s) && CodesOf(codes[..k], s[..k]);
      TextSpan(s[..k], codes[..k]);
      ObjectInterior(s, codes);
      RunPrefix(codes, k, 1, Outside(1, 1, 1));
      var here := Run(codes[..k], 1, Outside(1, 1, 1));
      RunExtremes(codes[..k], 1, Outside(1, 1, 1));
      RunExtremes(codes, k, here);
      LowIsApart(codes[..k], 1, Outside(1, 1, 1), 0);
    }
  }
}
