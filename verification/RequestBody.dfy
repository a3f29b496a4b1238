/**
 Reading a request body: within a byte limit, before anything parses it, and only if it does not
 nest too deeply.
 */
module RequestBody {
  import opened Bytes
  import opened Basics
  import opened Json
  import JsonDepth

  /** A content-length header: absent, unreadable, or a number. */
  datatype ContentLength = Absent | Unreadable | Announced(bytes: int)

  predicate Acceptable(length: ContentLength, limit: int) {
    length.Absent? || (length.Announced? && length.bytes <= limit)
  }

  predicate TooDeep(raw: Bytes) {
    JsonDepth.Run(raw, 0, JsonDepth.Outside(0, 0, 0)).peak > JsonDepth.MAX_JSON_DEPTH
  }

  /** The lengths are within the limit and the scan finds no nesting too deep. */
  predicate Admitted(length: ContentLength, chunks: seq<Bytes>, limit: int) {
    Acceptable(length, limit) && Total(chunks) <= limit && !TooDeep(Concat(chunks))
  }

  /** A JSON body in UTF-8 reaches the parser exactly when its size is allowed and it nests at most 64 deep. */
  lemma JsonBodiesAdmitted(length: ContentLength, chunks: seq<Bytes>, limit: int, s: string)
    requires ParseText(s).Some? && JsonDepth.IsUtf8(Concat(chunks), s)
    ensures Admitted(length, chunks, limit)
      <==> && Acceptable(length, limit) && Total(chunks) <= limit
           && JsonDepth.Nesting(ParseText(s).value) <= 64
  {
    hide ParseText, JsonDepth.IsUtf8, Concat, Total;
    JsonDepth.ScanAgreesWithNesting(s, Concat(chunks));
  }

  /**
   The bytes handed to the parser, if there are any. Whatever length was announced, no more than
   the limit is ever held.
   */
  method RequestBytes(length: ContentLength, chunks: seq<Bytes>, limit: int) returns (raw: Option<Bytes>)
    requires limit >= 0
    ensures raw.Some? <==> Admitted(length, chunks, limit)
    ensures raw.Some? ==> raw.value == Concat(chunks) && |raw.value| <= limit
  {
    if length.Unreadable? || (length.Announced? && length.bytes > limit) {
      return None;
    }
    var received := 0;
    var held: seq<Bytes> := [];
    for i := 0 to |chunks|
      invariant held == chunks[..i]
      invariant received == Total(chunks[..i]) <= limit
    {
      received := received + |chunks[i]|;
      TotalStep(chunks, i);
      if received > limit {
        TotalMonotone(chunks, i + 1, |chunks|);
        assert chunks[..|chunks|] == chunks;
        return None;
      }
      held := held + [chunks[i]];
    }
    assert chunks[..|chunks|] == chunks;
    ConcatLength(chunks);
    var exceeds := JsonDepth.ExceedsMaxJsonDepth(Concat(held));
    return if exceeds then None else Some(Concat(held));
  }
}
