/**
 Delivering an upstream response under a size limit, as a stream or as one buffered body. The
 upstream is the chunks it yields, after which it ends or breaks.
 */
module Relay {
  import opened Bytes

  datatype Upstream = Upstream(chunks: seq<Bytes>, breaks: bool)

  datatype StreamOutcome = Forwarded | TooLarge | Broken

  datatype Buffered = Content(body: Bytes) | Oversized | Failed

  /** The first `n` chunks fit, and the next one, if there is one, would not. */
  predicate LongestFit(chunks: seq<Bytes>, limit: int, n: nat) {
    && n <= |chunks| && Total(chunks[..n]) <= limit
    && (n < |chunks| ==> Total(chunks[..n + 1]) > limit)
  }

  /** No longer prefix of whole chunks fits in the limit, and only one prefix is the longest. */
  lemma LongestFitIsLongest(chunks: seq<Bytes>, limit: int, n: nat, m: nat)
    requires LongestFit(chunks, limit, n) && m <= |chunks|
    ensures Total(chunks[..m]) <= limit <==> m <= n
    ensures LongestFit(chunks, limit, m) ==> m == n
  {
    if m <= n {
      TotalMonotone(chunks, m, n);
    } else {
      TotalMonotone(chunks, n + 1, m);
    }
    if m < n {
      TotalMonotone(chunks, m + 1, n);
    }
  }

  /**
   Streams chunk by chunk: exactly the longest prefix of whole chunks that fits is delivered, and
   nothing is read behind the first chunk that overflows.
   */
  method RelayStream(upstream: Upstream, limit: int)
    returns (delivered: seq<Bytes>, outcome: StreamOutcome, pulled: nat)
    requires limit >= 0
    ensures LongestFit(upstream.chunks, limit, |delivered|) && delivered == upstream.chunks[..|delivered|]
    ensures outcome == TooLarge <==> |delivered| < |upstream.chunks|
    ensures outcome == Broken <==> |delivered| == |upstream.chunks| && upstream.breaks
    ensures pulled == if |delivered| < |upstream.chunks| then |delivered| + 1 else |upstream.chunks|
  {
    var received := 0;
    delivered := [];
    pulled := 0;
    for i := 0 to |upstream.chunks|
      invariant pulled == i && delivered == upstream.chunks[..i]
      invariant received == Total(upstream.chunks[..i]) <= limit
    {
      var chunk := upstream.chunks[i];
      pulled := pulled + 1;
      received := received + |chunk|;
      TotalStep(upstream.chunks, i);
      if received > limit {
        return delivered, TooLarge, pulled;
      }
      delivered := delivered + [chunk];
    }
    assert upstream.chunks[..|upstream.chunks|] == upstream.chunks;
    return delivered, if upstream.breaks then Broken else Forwarded, pulled;
  }

  /** Buffers the whole body: it is delivered complete or not at all. */
  method BoundedResponseContent(upstream: Upstream, limit: int) returns (result: Buffered, ghost fit: nat, pulled: nat)
    requires limit >= 0
    ensures LongestFit(upstream.chunks, limit, fit)
    ensures result == Oversized <==> fit < |upstream.chunks|
    ensures result == Failed <==> fit == |upstream.chunks| && upstream.breaks
    ensures result.Content? ==> result.body == Concat(upstream.chunks) && |result.body| <= limit
    ensures pulled == if fit < |upstream.chunks| then fit + 1 else |upstream.chunks|
  {
    hide Concat;
    var received := 0;
    var chunks: seq<Bytes> := [];
    pulled := 0;
    for i := 0 to |upstream.chunks|
      invariant pulled == i && chunks == upstream.chunks[..i]
      invariant received == Total(upstream.chunks[..i]) <= limit
    {
      var chunk := upstream.chunks[i];
      pulled := pulled + 1;
      received := received + |chunk|;
      TotalStep(upstream.chunks, i);
      if received > limit {
        return Oversized, i, pulled;
      }
      chunks := chunks + [chunk];
    }
    assert upstream.chunks[..|upstream.chunks|] == upstream.chunks;
    ConcatLength(chunks);
    return if upstream.breaks then Failed else Content(Concat(chunks)), |upstream.chunks|, pulled;
  }

  /**
   The two ways of delivering agree: both find the longest fitting prefix, which is everything
   exactly when the total fits, and what the stream then delivers joins to the buffered body.
   */
  lemma DeliveriesAgree(chunks: seq<Bytes>, limit: int, streamed: nat, buffered: nat)
    requires LongestFit(chunks, limit, streamed) && LongestFit(chunks, limit, buffered)
    ensures streamed == buffered
    ensures streamed == |chunks| <==> Total(chunks) <= limit
    ensures Total(chunks) <= limit ==> Concat(chunks[..streamed]) == Concat(chunks)
  {
    LongestFitIsLongest(chunks, limit, streamed, buffered);
    LongestFitIsLongest(chunks, limit, streamed, |chunks|);
    assert chunks[..|chunks|] == chunks;
  }
}
