/**
 The recogniser of the reserved root key in a primary credential that may be damaged. Text that
 strict loading accepts is classified by its root object. Any other text is lexed by hand,
 following only the grammar of the root object: a string in a key position that spells the
 reserved key, or that ends while spelling it, claims the text for the manifest format.
 */
module ManifestKey {
  import opened Basics
  import opened Json

  const MANIFEST_KEY := "windows-cache-chunks"

  /** The code units of the reserved key from its character `k` on. */
  function KeyUnits(k: nat): Units
    requires k <= |MANIFEST_KEY|
    decreases |MANIFEST_KEY| - k
  {
    if k == |MANIFEST_KEY| then [] else [MANIFEST_KEY[k] as int] + KeyUnits(k + 1)
  }

  predicate KeyCharacter(c: char) {
    c == '-' || 'a' <= c <= 'z'
  }

  lemma KeyCharacters(k: nat)
    requires k < |MANIFEST_KEY|
    ensures KeyCharacter(MANIFEST_KEY[k])
  {
    var key := MANIFEST_KEY;
    assert forall c :: c in key ==> KeyCharacter(c);
    assert key[k] in key;
  }

  // ----- characters -----

  /** The white space that `str.isspace` accepts, which is wider than JSON's. */
  predicate IsPythonSpace(c: char) {
    var code := c as int;
    || 0x09 <= code <= 0x0D || 0x1C <= code <= 0x20 || code == 0x85 || code == 0xA0 || code == 0x1680
    || 0x2000 <= code <= 0x200A || code == 0x2028 || code == 0x2029 || code == 0x202F || code == 0x205F
    || code == 0x3000
  }

  function LowerChar(c: char): char {
    if 'A' <= c <= 'Z' then (c as int + 32) as char else c
  }

  function Lower(s: string): (t: string)
    ensures |t| == |s| && forall k :: 0 <= k < |s| ==> t[k] == LowerChar(s[k])
  {
    seq(|s|, k requires 0 <= k < |s| => LowerChar(s[k]))
  }

  function HexDigit(v: int): (c: char)
    requires 0 <= v < 16
    ensures IsHex(c) && HexValue(c) == v && LowerChar(c) == c
  {
    if v < 10 then ('0' as int + v) as char else ('a' as int + v - 10) as char
  }

  /** Four lower-case hexadecimal digits, as the format `04x` prints a code below 0x10000. */
  function FourHex(code: int): (t: string)
    requires 0 <= code < 0x1_0000
    ensures |t| == 4
  {
    [HexDigit(code / 0x1000), HexDigit(code / 0x100 % 0x10), HexDigit(code / 0x10 % 0x10), HexDigit(code % 0x10)]
  }

  predicate AllHex(digits: string) {
    forall d :: d in digits ==> IsHex(d)
  }

  // ----- lexing one string -----

  /** What the string lexer answers from `position` on, with `target` characters of the key matched. */
  function MatchFrom(s: string, position: nat, target: nat, matches: bool): (r: (bool, nat))
    requires position <= |s| && target <= |MANIFEST_KEY|
    ensures position <= r.1 <= |s| && (position < |s| ==> position < r.1)
    decreases |s| - position
  {
    if position == |s| then (matches && target > 0, position)
    else if s[position] == '"' then (matches && target == |MANIFEST_KEY|, position + 1)
    else if s[position] == '\\' then
      if position + 1 == |s| then (matches && target < |MANIFEST_KEY|, position + 1)
      else if s[position + 1] != 'u' then MatchFrom(s, position + 2, target, false)
      else if position + 6 > |s| then (matches && MatchesDigits(s[position + 2..], target), |s|)
      else if matches && EscapesTarget(s[position + 2..position + 6], target) then
        MatchFrom(s, position + 6, target + 1, true)
      else MatchFrom(s, position + 6, target, false)
    else if matches && target < |MANIFEST_KEY| && s[position] == MANIFEST_KEY[target] then
      MatchFrom(s, position + 1, target + 1, true)
    else MatchFrom(s, position + 1, target, false)
  }

  /** Fewer than four digits are left: they must begin the escape of the next key character. */
  predicate MatchesDigits(digits: string, target: nat)
    requires target <= |MANIFEST_KEY|
  {
    if target < |MANIFEST_KEY| then Lower(digits) <= FourHex(MANIFEST_KEY[target] as int) else digits == ""
  }

  predicate EscapesTarget(digits: string, target: nat)
    requires target <= |MANIFEST_KEY|
  {
    AllHex(digits) && target < |MANIFEST_KEY| && Lower(digits) == FourHex(MANIFEST_KEY[target] as int)
  }

  /** What the escape of the next key character would be; nothing when no match is left to make. */
  function ExpectedDigits(target: nat, matches: bool): string
    requires target <= |MANIFEST_KEY|
  {
    if matches && target < |MANIFEST_KEY| then FourHex(MANIFEST_KEY[target] as int) else ""
  }

  /** Slicing as Python does it: a slice past the end stops at the end. */
  function Clipped(s: string, n: nat): string {
    if n <= |s| then s[..n] else s
  }

  lemma PartialDigits(digits: string, target: nat, matches: bool)
    requires target <= |MANIFEST_KEY| && |digits| < 4
    ensures (matches && Lower(digits) == Clipped(ExpectedDigits(target, matches), |digits|))
      <==> matches && MatchesDigits(digits, target)
  {
    hide FourHex;
    assert |Lower(digits)| == |digits|;
  }

  method MatchesPartialWindowsManifestKey(serialized: string, start: nat) returns (matched: bool, end: nat)
    requires start < |serialized|
    ensures (matched, end) == MatchFrom(serialized, start + 1, 0, true)
  {
    hide FourHex, AllHex, Lower, MatchesDigits, ExpectedDigits;
    var targetIndex := 0;
    var matches := true;
    var position := start + 1;
    while position < |serialized|
      invariant start < position <= |serialized| && 0 <= targetIndex <= |MANIFEST_KEY|
      invariant MatchFrom(serialized, start + 1, 0, true) == MatchFrom(serialized, position, targetIndex, matches)
    {
      var character := serialized[position];
      if character == '"' {
        return matches && targetIndex == |MANIFEST_KEY|, position + 1;
      }
      if character == '\\' {
        position := position + 1;
        if position == |serialized| {
          return matches && targetIndex < |MANIFEST_KEY|, position;
        }
        if serialized[position] == 'u' {
          var stop := if position + 5 <= |serialized| then position + 5 else |serialized|;
          var digits := serialized[position + 1..stop];
          if |digits| < 4 {
            assert digits == serialized[position + 1..];
            PartialDigits(digits, targetIndex, matches);
            var expected := ExpectedDigits(targetIndex, matches);
            return matches && Lower(digits) == Clipped(expected, |digits|), |serialized|;
          }
          if !AllHex(digits) || !matches || targetIndex == |MANIFEST_KEY|
             || Lower(digits) != FourHex(MANIFEST_KEY[targetIndex] as int) {
            matches := false;
          } else {
            targetIndex := targetIndex + 1;
          }
          position := position + 5;
          continue;
        }
        matches := false;
        position := position + 1;
        continue;
      }
      if !matches || targetIndex == |MANIFEST_KEY| || character != MANIFEST_KEY[targetIndex] {
        matches := false;
      } else {
        targetIndex := targetIndex + 1;
      }
      position := position + 1;
    }
    return matches && targetIndex > 0, position;
  }

  // ----- lexing the root object -----

  datatype RootState = KeyNext | ColonNext | ValueNext | AfterValue

  predicate EndsScalar(c: char) {
    IsSpace(c) || c == ',' || c == '}'
  }

  function ScalarEnd(s: string, i: nat): (j: nat)
    requires i <= |s|
    ensures i <= j <= |s|
    ensures forall k :: i <= k < j ==> !EndsScalar(s[k])
    ensures j < |s| ==> EndsScalar(s[j])
    decreases |s| - i
  {
    if i < |s| && !EndsScalar(s[i]) then ScalarEnd(s, i + 1) else i
  }

  predicate IsScalar(v: Value) {
    !v.Object? && !v.Array? && !v.Str?
  }

  /** A strictly loaded text that is neither an object, nor an array, nor a string. */
  predicate LoadsScalar(t: string)
    ensures t == "" ==> !LoadsScalar(t)
  {
    match StrictLoads(t)
    case None => false
    case Some(v) => IsScalar(v)
  }

  /** Where the lexer leaves a nested container, strings skipped and brackets only counted. */
  function SkipNested(s: string, position: nat, depth: nat): (end: nat)
    requires position <= |s| && depth >= 1
    ensures position <= end <= |s|
    decreases |s| - position
  {
    if depth == 1 || position == |s| then position
    else if s[position] == '"' then SkipNested(s, MatchFrom(s, position + 1, 0, true).1, depth)
    else if s[position] == '{' || s[position] == '[' then SkipNested(s, position + 1, depth + 1)
    else if s[position] == '}' || s[position] == ']' then SkipNested(s, position + 1, depth - 1)
    else SkipNested(s, position + 1, depth)
  }

  /** What the lexer answers from `position` on at the level of the root object. */
  predicate Scan(s: string, position: nat, state: RootState)
    requires position <= |s|
    decreases |s| - position
  {
    position < |s| &&
    if IsPythonSpace(s[position]) then Scan(s, position + 1, state)
    else if s[position] == '"' then
      var (matches, end) := MatchFrom(s, position + 1, 0, true);
      (state.KeyNext? && matches) || Scan(s, end, AfterString(state))
    else
      match state
      case KeyNext => false
      case ColonNext => s[position] == ':' && Scan(s, position + 1, ValueNext)
      case AfterValue => s[position] == ',' && Scan(s, position + 1, KeyNext)
      case ValueNext =>
        if s[position] == '{' || s[position] == '[' then Scan(s, SkipNested(s, position + 1, 2), AfterValue)
        else
          var end := ScalarEnd(s, position);
          LoadsScalar(s[position..end]) && Scan(s, end, AfterValue)
  }

  function AfterString(state: RootState): RootState {
    match state
    case KeyNext => ColonNext
    case ValueNext => AfterValue
    case _ => state
  }

  /** What the lexer answers inside a container, once it is back at the level of the root object. */
  predicate Answer(s: string, position: nat, depth: nat, state: RootState)
    requires position <= |s| && depth >= 1
  {
    if depth == 1 then Scan(s, position, state) else Scan(s, SkipNested(s, position, depth), AfterValue)
  }

  function SkipPythonSpace(s: string, i: nat): (j: nat)
    requires i <= |s|
    ensures i <= j <= |s|
    ensures j < |s| ==> !IsPythonSpace(s[j])
    ensures forall k :: i <= k < j ==> IsPythonSpace(s[k])
    decreases |s| - i
  {
    if i < |s| && IsPythonSpace(s[i]) then SkipPythonSpace(s, i + 1) else i
  }

  predicate ScanText(s: string) {
    var start := SkipPythonSpace(s, 0);
    start < |s| && s[start] == '{' && Scan(s, start + 1, KeyNext)
  }

  predicate ClaimsKey(v: Value) {
    v.Object? && HasKey(v.members, KeyUnits(0))
  }

  /** Whether a text claims the reserved root key. */
  predicate Contains(s: string) {
    match StrictLoads(s)
    case Some(v) => ClaimsKey(v)
    case None => ScanText(s)
  }

  /** Space and strings do to the lexer's answer what they do to its position and state. */
  lemma AnswerBehind(s: string, position: nat, depth: nat, state: RootState)
    requires position < |s| && depth >= 1
    ensures IsPythonSpace(s[position]) ==> Answer(s, position, depth, state) == Answer(s, position + 1, depth, state)
    ensures !IsPythonSpace(s[position]) && s[position] == '"' ==>
              var (matches, end) := MatchFrom(s, position + 1, 0, true);
              Answer(s, position, depth, state)
              == ((depth == 1 && state.KeyNext? && matches) || Answer(s, end, depth, AfterStringAt(depth, state)))
  {
    hide MatchFrom, LoadsScalar, ScalarEnd;
  }

  function AfterStringAt(depth: nat, state: RootState): RootState {
    if depth == 1 then AfterString(state) else state
  }

  /** Brackets inside a container only change the depth. */
  lemma AnswerNested(s: string, position: nat, depth: nat)
    requires position < |s| && depth >= 2 && !IsPythonSpace(s[position]) && s[position] != '"'
    ensures var c := s[position];
      Answer(s, position, depth, ValueNext)
      == if c == '{' || c == '[' then Answer(s, position + 1, depth + 1, ValueNext)
         else if c == '}' || c == ']' then
           Answer(s, position + 1, depth - 1, if depth == 2 then AfterValue else ValueNext)
         else Answer(s, position + 1, depth, ValueNext)
  {
    hide Scan, MatchFrom;
  }

  method ContainsWindowsManifestKey(serialized: string) returns (found: bool)
    ensures found == Contains(serialized)
  {
    hide StrictLoads, MatchFrom, KeyUnits, IsPythonSpace, LoadsScalar, EndsScalar, SkipNested;
    var decoded := StrictLoads(serialized);
    if decoded.Some? {
      return decoded.value.Object? && exists m :: m in decoded.value.members && m.key == KeyUnits(0);
    }
    var position := 0;
    while position < |serialized| && IsPythonSpace(serialized[position])
      invariant 0 <= position <= |serialized|
      invariant SkipPythonSpace(serialized, 0) == SkipPythonSpace(serialized, position)
    {
      position := position + 1;
    }
    if position == |serialized| || serialized[position] != '{' {
      return false;
    }
    var depth := 1;
    var rootState := KeyNext;
    position := position + 1;
    while position < |serialized|
      invariant 0 <= position <= |serialized| && depth >= 1
      invariant depth > 1 ==> rootState == ValueNext
      invariant ScanText(serialized) == Answer(serialized, position, depth, rootState)
      decreases |serialized| - position
    {
      var character := serialized[position];
      AnswerBehind(serialized, position, depth, rootState);
      if IsPythonSpace(character) {
        position := position + 1;
        continue;
      }
      if character == '"' {
        var matches, end := MatchesPartialWindowsManifestKey(serialized, position);
        if depth == 1 && rootState == KeyNext && matches {
          return true;
        }
        position := end;
        if depth == 1 && rootState == KeyNext {
          rootState := ColonNext;
        } else if depth == 1 && rootState == ValueNext {
          rootState := AfterValue;
        }
        continue;
      }
      if depth == 1 {
        if rootState == KeyNext {
          return false;
        }
        if rootState == ColonNext {
          if character != ':' {
            return false;
          }
          rootState := ValueNext;
        } else if rootState == ValueNext {
          if character == '{' || character == '[' {
            depth := 2;
            position := position + 1;
          } else {
            var scalarEnd := position;
            while scalarEnd < |serialized| && !EndsScalar(serialized[scalarEnd])
              invariant position <= scalarEnd <= |serialized|
              invariant ScalarEnd(serialized, position) == ScalarEnd(serialized, scalarEnd)
            {
              scalarEnd := scalarEnd + 1;
            }
            assert scalarEnd == ScalarEnd(serialized, position);
            if !LoadsScalar(serialized[position..scalarEnd]) {
              return false;
            }
            rootState := AfterValue;
            position := scalarEnd;
          }
          continue;
        } else {
          if character == ',' {
            rootState := KeyNext;
          } else {
            return false;
          }
        }
        position := position + 1;
        continue;
      }
      AnswerNested(serialized, position, depth);
      if character == '{' || character == '[' {
        depth := depth + 1;
      } else if character == ']' || character == '}' {
        depth := depth - 1;
        if depth == 1 {
          rootState := AfterValue;
        }
      }
      position := position + 1;
    }
    return false;
  }
}
