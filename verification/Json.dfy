/**
 JSON text (RFC 8259) as the broker reads it: the value grammar of sections 2 to 7 as a
 recursive-descent reader over positions of one fixed text, and the strict loader of the
 credential cache, which also refuses duplicate object keys.

 A decoded string is its sequence of UTF-16 code units. A surrogate pair written as two
 escapes and the same character written literally decode to the same units.
 */
module Json {
  import opened Basics

  type Units = seq<int>

  datatype Value =
    | Null
    | Bool(truth: bool)
    | Int(value: int)
    | Float
    | Str(text: Units)
    | Array(items: seq<Value>)
    | Object(members: seq<Member>)

  datatype Member = Member(key: Units, value: Value)

  /** A failed read, or what was read and the position just past it. */
  datatype Parse<+T> = Fail | Read(value: T, end: nat)

  // ----- characters -----

  predicate IsSpace(c: char) {
    c == ' ' || c == '\t' || c == '\n' || c == '\r'
  }

  predicate IsDigit(c: char) {
    '0' <= c <= '9'
  }

  predicate IsHex(c: char) {
    IsDigit(c) || 'a' <= c <= 'f' || 'A' <= c <= 'F'
  }

  /** The characters that open or close strings and containers. */
  predicate Structural(c: char) {
    c == '"' || c == '{' || c == '}' || c == '[' || c == ']'
  }

  function HexValue(c: char): (v: int)
    requires IsHex(c)
    ensures 0 <= v < 16
  {
    if IsDigit(c) then c as int - '0' as int
    else if 'a' <= c then c as int - 'a' as int + 10
    else c as int - 'A' as int + 10
  }

  /** The UTF-16 code units of one character. */
  function CharUnits(c: char): (units: Units)
    ensures units != []
    ensures |units| == 1 ==> units == [c as int]
  {
    var code := c as int;
    if code < 0x1_0000 then [code]
    else [0xD800 + (code - 0x1_0000) / 0x400, 0xDC00 + (code - 0x1_0000) % 0x400]
  }

  /** The number of bytes of a text in UTF-16 (RFC 2781 section 2.1). */
  function Utf16Bytes(s: string): nat {
    if s == "" then 0 else 2 * |CharUnits(s[0])| + Utf16Bytes(s[1..])
  }

  // ----- tokens -----

  function SkipSpace(s: string, i: nat): (j: nat)
    requires i <= |s|
    ensures i <= j <= |s|
    ensures forall k :: i <= k < j ==> IsSpace(s[k])
    ensures j < |s| ==> !IsSpace(s[j])
    decreases |s| - i
  {
    if i < |s| && IsSpace(s[i]) then SkipSpace(s, i + 1) else i
  }

  function SimpleEscape(c: char): Option<int> {
    match c
    case '"' => Some(0x22)
    case '\\' => Some(0x5C)
    case '/' => Some(0x2F)
    case 'b' => Some(0x08)
    case 'f' => Some(0x0C)
    case 'n' => Some(0x0A)
    case 'r' => Some(0x0D)
    case 't' => Some(0x09)
    case _ => None
  }

  predicate Hex4At(s: string, i: nat) {
    i + 4 <= |s| && IsHex(s[i]) && IsHex(s[i + 1]) && IsHex(s[i + 2]) && IsHex(s[i + 3])
  }

  function Hex4(s: string, i: nat): (unit: int)
    requires Hex4At(s, i)
    ensures 0 <= unit < 0x1_0000
  {
    ((HexValue(s[i]) * 16 + HexValue(s[i + 1])) * 16 + HexValue(s[i + 2])) * 16 + HexValue(s[i + 3])
  }

  /** Reads string contents from just past the opening quote to just past the closing one. */
  function StringBody(s: string, i: nat): (r: Parse<Units>)
    requires i <= |s|
    ensures r.Read? ==> i < r.end <= |s| && s[r.end - 1] == '"'
    decreases |s| - i
  {
    if i == |s| then Fail
    else if s[i] == '"' then Read([], i + 1)
    else if s[i] == '\\' then
      if i + 1 == |s| then Fail
      else if s[i + 1] == 'u' then
        if Hex4At(s, i + 2) then Prepend([Hex4(s, i + 2)], StringBody(s, i + 6)) else Fail
      else match SimpleEscape(s[i + 1])
        case Some(unit) => Prepend([unit], StringBody(s, i + 2))
        case None => Fail
    else if s[i] < ' ' then Fail
    else Prepend(CharUnits(s[i]), StringBody(s, i + 1))
  }

  function Prepend(units: Units, r: Parse<Units>): Parse<Units> {
    match r
    case Fail => Fail
    case Read(rest, end) => Read(units + rest, end)
  }

  function ParseString(s: string, i: nat): (r: Parse<Units>)
    requires i <= |s|
    ensures r.Read? ==> i < r.end <= |s| && s[i] == '"' == s[r.end - 1]
  {
    if i < |s| && s[i] == '"' then StringBody(s, i + 1) else Fail
  }

  function DigitsEnd(s: string, i: nat): (j: nat)
    requires i <= |s|
    ensures i <= j <= |s|
    ensures forall k :: i <= k < j ==> IsDigit(s[k])
    ensures j < |s| ==> !IsDigit(s[j])
    decreases |s| - i
  {
    if i < |s| && IsDigit(s[i]) then DigitsEnd(s, i + 1) else i
  }

  function Decimal(digits: string): int
    requires forall k :: 0 <= k < |digits| ==> IsDigit(digits[k])
  {
    if digits == "" then 0
    else Decimal(digits[..|digits| - 1]) * 10 + (digits[|digits| - 1] as int - '0' as int)
  }

  /** The end of the integer part that starts at `i`, or `i` itself when there is none. */
  function IntegerEnd(s: string, i: nat): (j: nat)
    requires i <= |s|
    ensures i <= j <= |s|
    ensures forall k :: i <= k < j ==> IsDigit(s[k])
  {
    if i < |s| && s[i] == '0' then i + 1 else DigitsEnd(s, i)
  }

  function FractionEnd(s: string, i: nat): (j: nat)
    requires i <= |s|
    ensures i <= j <= |s|
    ensures forall k :: i <= k < j ==> InNumber(s[k])
  {
    if i + 1 < |s| && s[i] == '.' && IsDigit(s[i + 1]) then DigitsEnd(s, i + 1) else i
  }

  function ExponentEnd(s: string, i: nat): (j: nat)
    requires i <= |s|
    ensures i <= j <= |s|
    ensures forall k :: i <= k < j ==> InNumber(s[k])
  {
    if i + 1 < |s| && (s[i] == 'e' || s[i] == 'E') then
      var digits := if s[i + 1] == '+' || s[i + 1] == '-' then i + 2 else i + 1;
      if digits < |s| && IsDigit(s[digits]) then DigitsEnd(s, digits) else i
    else i
  }

  predicate InNumber(c: char) {
    IsDigit(c) || c == '-' || c == '+' || c == '.' || c == 'e' || c == 'E'
  }

  function ParseNumber(s: string, i: nat): (r: Parse<Value>)
    requires i <= |s|
    ensures r.Read? ==> i < r.end <= |s| && (r.value.Int? || r.value.Float?)
    ensures r.Read? ==> (s[i] == '-' || IsDigit(s[i])) && forall k :: i <= k < r.end ==> InNumber(s[k])
  {
    var start := if i < |s| && s[i] == '-' then i + 1 else i;
    var whole := IntegerEnd(s, start);
    if whole == start then Fail
    else
      var end := ExponentEnd(s, FractionEnd(s, whole));
      if end > whole then Read(Float, end)
      else Read(Int(if start == i then Decimal(s[start..whole]) else -Decimal(s[start..whole])), end)
  }

  predicate Literally(s: string, i: nat, word: string) {
    i + |word| <= |s| && s[i..i + |word|] == word
  }

  /** Strings, literal names and numbers. */
  function ParseScalar(s: string, i: nat): (r: Parse<Value>)
    requires i <= |s|
    ensures r.Read? ==> i < r.end <= |s| && !r.value.Array? && !r.value.Object?
  {
    if i < |s| && s[i] == '"' then
      match ParseString(s, i)
      case Fail => Fail
      case Read(text, end) => Read(Str(text), end)
    else if Literally(s, i, "null") then Read(Null, i + 4)
    else if Literally(s, i, "true") then Read(Bool(true), i + 4)
    else if Literally(s, i, "false") then Read(Bool(false), i + 5)
    else ParseNumber(s, i)
  }

  // ----- values -----

  function ParseValue(s: string, i: nat): (r: Parse<Value>)
    requires i <= |s|
    ensures r.Read? ==> i < r.end <= |s|
    decreases |s| - i, 1
  {
    if i < |s| && s[i] == '[' then ParseArray(s, i)
    else if i < |s| && s[i] == '{' then ParseObject(s, i)
    else ParseScalar(s, i)
  }

  function ParseArray(s: string, i: nat): (r: Parse<Value>)
    requires i < |s| && s[i] == '['
    ensures r.Read? ==> i < r.end <= |s| && r.value.Array?
    decreases |s| - i, 0
  {
    var first := SkipSpace(s, i + 1);
    if first < |s| && s[first] == ']' then Read(Array([]), first + 1)
    else
      match ParseItems(s, first)
      case Fail => Fail
      case Read(items, end) => Read(Array(items), end)
  }

  function ParseObject(s: string, i: nat): (r: Parse<Value>)
    requires i < |s| && s[i] == '{'
    ensures r.Read? ==> i < r.end <= |s| && r.value.Object?
    decreases |s| - i, 0
  {
    var first := SkipSpace(s, i + 1);
    if first < |s| && s[first] == '}' then Read(Object([]), first + 1)
    else
      match ParseMembers(s, first)
      case Fail => Fail
      case Read(members, end) => Read(Object(members), end)
  }

  /** Reads one or more array items, the commas between them and the closing bracket. */
  function ParseItems(s: string, i: nat): (r: Parse<seq<Value>>)
    requires i <= |s|
    ensures r.Read? ==> i < r.end <= |s| && r.value != []
    decreases |s| - i, 2
  {
    match ParseValue(s, i)
    case Fail => Fail
    case Read(item, end) =>
      var next := SkipSpace(s, end);
      if next == |s| then Fail
      else if s[next] == ']' then Read([item], next + 1)
      else if s[next] == ',' then
        match ParseItems(s, SkipSpace(s, next + 1))
        case Fail => Fail
        case Read(items, last) => Read([item] + items, last)
      else Fail
  }

  /** Reads one member: key, colon and value, and the space after the value. */
  function ParseMember(s: string, i: nat): (r: Parse<Member>)
    requires i <= |s|
    ensures r.Read? ==> i < r.end <= |s| && s[i] == '"'
    decreases |s| - i, 2
  {
    match ParseString(s, i)
    case Fail => Fail
    case Read(key, end) =>
      var colon := SkipSpace(s, end);
      if colon < |s| && s[colon] == ':' then
        match ParseValue(s, SkipSpace(s, colon + 1))
        case Fail => Fail
        case Read(value, last) => Read(Member(key, value), SkipSpace(s, last))
      else Fail
  }

  /** Reads one or more members, the commas between them and the closing brace. */
  function ParseMembers(s: string, i: nat): (r: Parse<seq<Member>>)
    requires i <= |s|
    ensures r.Read? ==> i < r.end <= |s| && r.value != []
    decreases |s| - i, 3
  {
    match ParseMember(s, i)
    case Fail => Fail
    case Read(member, next) =>
      if next == |s| then Fail
      else if s[next] == '}' then Read([member], next + 1)
      else if s[next] == ',' then
        match ParseMembers(s, SkipSpace(s, next + 1))
        case Fail => Fail
        case Read(members, last) => Read([member] + members, last)
      else Fail
  }

  /** A whole text: space, one value, space (RFC 8259 section 2). */
  function ParseText(s: string): Option<Value> {
    match ParseValue(s, SkipSpace(s, 0))
    case Fail => None
    case Read(value, end) => if SkipSpace(s, end) == |s| then Some(value) else None
  }

  predicate HasKey(members: seq<Member>, key: Units) {
    exists m :: m in members && m.key == key
  }

  predicate DistinctKeys(members: seq<Member>) {
    forall j, k :: 0 <= j < k < |members| ==> members[j].key != members[k].key
  }

  /** No object anywhere in the value repeats a key. */
  predicate Unambiguous(v: Value) {
    match v
    case Array(items) => forall item :: item in items ==> Unambiguous(item)
    case Object(members) => DistinctKeys(members) && forall m :: m in members ==> Unambiguous(m.value)
    case _ => true
  }

  /** Strict loading: RFC 8259 text in which no object repeats a key. */
  function StrictLoads(s: string): Option<Value> {
    match ParseText(s)
    case None => None
    case Some(value) => if Unambiguous(value) then Some(value) else None
  }

  // ----- how lists of items and members are read -----

  lemma ItemsShape(s: string, i: nat)
    requires i <= |s| && ParseItems(s, i).Read?
    ensures var r := ParseItems(s, i); var item := ParseValue(s, i);
      && item.Read?
      && var next := SkipSpace(s, item.end);
      && next < |s| && (s[next] == ']' || s[next] == ',')
      && (s[next] == ']' ==> r == Read([item.value], next + 1))
      && (s[next] == ',' ==>
            var rest := ParseItems(s, SkipSpace(s, next + 1));
            rest.Read? && r == Read([item.value] + rest.value, rest.end))
  {
    hide ParseValue;
  }

  lemma MembersShape(s: string, i: nat)
    requires i <= |s| && ParseMembers(s, i).Read?
    ensures var r := ParseMembers(s, i); var member := ParseMember(s, i);
      && member.Read?
      && var next := member.end;
      && next < |s| && (s[next] == '}' || s[next] == ',')
      && (s[next] == '}' ==> r == Read([member.value], next + 1))
      && (s[next] == ',' ==>
            var rest := ParseMembers(s, SkipSpace(s, next + 1));
            rest.Read? && r == Read([member.value] + rest.value, rest.end))
  {
    hide ParseMember;
  }
}
