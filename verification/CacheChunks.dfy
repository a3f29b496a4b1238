/**
 Cutting a payload into pieces that each fit in one credential, counted in UTF-16 bytes. The cut
 is greedy, at code-point boundaries, and no other such cut uses fewer pieces.
 */
module CacheChunks {
  import opened Json

  const CHUNK_BYTES := 2_400

  function CharBytes(c: char): (n: nat)
    ensures n == 2 || n == 4
  {
    2 * |CharUnits(c)|
  }

  /** How many leading characters fit in the budget. */
  function Fit(s: string, budget: int): (n: nat)
    ensures n <= |s|
    ensures budget >= 4 && s != "" ==> n > 0
  {
    if s == "" || CharBytes(s[0]) > budget then 0 else 1 + Fit(s[1..], budget - CharBytes(s[0]))
  }

  function Pieces(s: string): (chunks: seq<string>)
    ensures s == "" <==> chunks == []
    decreases |s|
  {
    if s == "" then []
    else
      var n := Fit(s, CHUNK_BYTES);
      [s[..n]] + Pieces(s[n..])
  }

  function Join(chunks: seq<string>): string {
    if chunks == [] then "" else chunks[0] + Join(chunks[1..])
  }

  method SplitWindowsCache(serialized: string) returns (chunks: seq<string>)
    ensures chunks == Pieces(serialized)
  {
    hide Pieces, Fit, CharBytes, Utf16Bytes;
    chunks := [];
    var current := "";
    var currentBytes := 0;
    NoBytes();
    assert current + serialized[0..] == serialized;
    for i := 0 to |serialized|
      invariant currentBytes == Utf16Bytes(current) <= CHUNK_BYTES
      invariant Pieces(serialized) == chunks + Pieces(current + serialized[i..])
      invariant i > 0 ==> current != ""
    {
      var character := serialized[i];
      var characterBytes := CharBytes(character);
      var rest := serialized[i..];
      assert rest == [character] + serialized[i + 1..];
      if current != "" && currentBytes + characterBytes > CHUNK_BYTES {
        FirstPiece(current, rest);
        chunks := chunks + [current];
        current := "";
        currentBytes := 0;
        assert "" + rest == rest;
      }
      BytesAppend(current, character);
      assert current + rest == (current + [character]) + serialized[i + 1..];
      current := current + [character];
      currentBytes := currentBytes + characterBytes;
    }
    assert current + serialized[|serialized|..] == current;
    if current != "" {
      FirstPiece(current, "");
      assert current + "" == current;
      chunks := chunks + [current];
    }
    assert Pieces("") == [];
  }

  lemma NoBytes()
    ensures Utf16Bytes("") == 0
  {
  }

  lemma {:induction false} BytesAppend(s: string, c: char)
    ensures Utf16Bytes(s + [c]) == Utf16Bytes(s) + CharBytes(c)
  {
    if s != "" {
      BytesAppend(s[1..], c);
      assert (s + [c])[1..] == s[1..] + [c];
    }
  }

  lemma {:induction false} BytesConcat(s: string, t: string)
    ensures Utf16Bytes(s + t) == Utf16Bytes(s) + Utf16Bytes(t)
  {
    if s == "" {
      assert s + t == t;
    } else {
      BytesConcat(s[1..], t);
      assert (s + t)[1..] == s[1..] + t;
    }
  }

  /** A beginning that fits and cannot be extended is what the greedy cut takes. */
  lemma {:induction false} FitExactly(head: string, tail: string, budget: int)
    requires Utf16Bytes(head) <= budget
    requires tail != "" ==> Utf16Bytes(head) + CharBytes(tail[0]) > budget
    ensures Fit(head + tail, budget) == |head|
    decreases |head|
  {
    if head == "" {
      assert head + tail == tail;
    } else {
      assert (head + tail)[1..] == head[1..] + tail;
      FitExactly(head[1..], tail, budget - CharBytes(head[0]));
    }
  }

  lemma FirstPiece(head: string, tail: string)
    requires head != "" && Utf16Bytes(head) <= CHUNK_BYTES
    requires tail != "" ==> Utf16Bytes(head) + CharBytes(tail[0]) > CHUNK_BYTES
    ensures Pieces(head + tail) == [head] + Pieces(tail)
  {
    FitExactly(head, tail, CHUNK_BYTES);
    var s := head + tail;
    assert s[..|head|] == head && s[|head|..] == tail;
  }

  lemma {:induction false} FitBounds(s: string, budget: int)
    requires budget >= 0
    ensures var n := Fit(s, budget);
      Utf16Bytes(s[..n]) <= budget && (n < |s| ==> Utf16Bytes(s[..n]) + CharBytes(s[n]) > budget)
    decreases |s|
  {
    if s != "" && CharBytes(s[0]) <= budget {
      FitBounds(s[1..], budget - CharBytes(s[0]));
      var n := Fit(s, budget);
      assert s[..n][1..] == s[1..][..n - 1];
    }
  }

  lemma {:induction false} BytesEven(s: string)
    ensures Utf16Bytes(s) % 2 == 0
    ensures s != "" ==> Utf16Bytes(s) >= 2
  {
    if s != "" {
      BytesEven(s[1..]);
    }
  }

  lemma JoinCons(first: string, rest: seq<string>)
    ensures Join([first] + rest) == first + Join(rest)
  {
    assert ([first] + rest)[1..] == rest;
  }

  /** Concatenating the pieces gives back the payload. */
  lemma {:induction false} JoinPieces(s: string)
    ensures Join(Pieces(s)) == s
    decreases |s|
  {
    hide Fit;
    if s != "" {
      var n := Fit(s, CHUNK_BYTES);
      var rest := Pieces(s[n..]);
      JoinPieces(s[n..]);
      JoinCons(s[..n], rest);
      assert s[..n] + s[n..] == s;
    }
  }

  /** Every piece fits, and every piece but the last is full to within one code unit. */
  lemma {:induction false} PieceSizes(s: string)
    ensures forall k :: 0 <= k < |Pieces(s)| ==> 2 <= Utf16Bytes(Pieces(s)[k]) <= CHUNK_BYTES
    ensures forall k :: 0 <= k < |Pieces(s)| - 1 ==> Utf16Bytes(Pieces(s)[k]) >= CHUNK_BYTES - 2
    decreases |s|
  {
    if s != "" {
      var n := Fit(s, CHUNK_BYTES);
      var rest := Pieces(s[n..]);
      FitBounds(s, CHUNK_BYTES);
      BytesEven(s[..n]);
      PieceSizes(s[n..]);
      assert Pieces(s) == [s[..n]] + rest;
      assert forall k :: 1 <= k < |Pieces(s)| ==> Pieces(s)[k] == rest[k - 1];
    }
  }

  /** The number of pieces is bounded by the size of the payload. */
  lemma {:induction false} PieceCount(s: string)
    requires s != ""
    ensures |Pieces(s)| <= 1 + (Utf16Bytes(s) - 2) / (CHUNK_BYTES - 2)
    decreases |s|
  {
    hide Fit, Utf16Bytes;
    var n := Fit(s, CHUNK_BYTES);
    assert s[..n] + s[n..] == s;
    BytesConcat(s[..n], s[n..]);
    BytesEven(s[n..]);
    FitBounds(s, CHUNK_BYTES);
    BytesEven(s[..n]);
    if n < |s| {
      PieceCount(s[n..]);
      assert Utf16Bytes(s[..n]) >= CHUNK_BYTES - 2;
    }
  }

  /** What a cut of the payload into credential-sized pieces is. */
  ghost predicate IsCut(chunks: seq<string>, s: string) {
    Join(chunks) == s && forall c :: c in chunks ==> Utf16Bytes(c) <= CHUNK_BYTES
  }

  lemma {:induction false} FitMonotone(s: string, m: nat, budget: int)
    requires m <= Fit(s, budget)
    ensures m + Fit(s[m..], budget) >= Fit(s, budget)
    decreases m
  {
    if m > 0 {
      FitMonotone(s[1..], m - 1, budget - CharBytes(s[0]));
      assert s[1..][m - 1..] == s[m..];
      FitGrows(s[m..], budget - CharBytes(s[0]), budget);
    } else {
      assert s[0..] == s;
    }
  }

  lemma {:induction false} FitGrows(s: string, small: int, large: int)
    requires small <= large
    ensures Fit(s, small) <= Fit(s, large)
    decreases |s|
  {
    if s != "" {
      FitGrows(s[1..], small - CharBytes(s[0]), large - CharBytes(s[0]));
    }
  }

  /** Dropping a beginning of the payload never needs more pieces. */
  lemma {:induction false} PiecesShrink(s: string, m: nat)
    requires m <= |s|
    ensures |Pieces(s[m..])| <= |Pieces(s)|
    decreases |s|
  {
    hide Fit;
    if m < |s| {
      var n := Fit(s, CHUNK_BYTES);
      if m >= n {
        PiecesShrink(s[n..], m - n);
        assert s[n..][m - n..] == s[m..];
      } else {
        FitMonotone(s, m, CHUNK_BYTES);
        var t := s[m..];
        var k := Fit(t, CHUNK_BYTES);
        assert t[k..] == s[n..][m + k - n..];
        PiecesShrink(s[n..], m + k - n);
      }
    }
  }

  lemma {:induction false} FitCovers(s: string, k: nat, budget: int)
    requires k <= |s| && Utf16Bytes(s[..k]) <= budget
    ensures k <= Fit(s, budget)
    decreases k
  {
    if k > 0 {
      assert s[..k][1..] == s[1..][..k - 1];
      FitCovers(s[1..], k - 1, budget - CharBytes(s[0]));
    }
  }

  /** Without its first piece a cut is a cut of what is left. */
  lemma CutTail(s: string, chunks: seq<string>)
    requires IsCut(chunks, s) && s != ""
    ensures chunks != [] && |chunks[0]| <= |s| && Utf16Bytes(s[..|chunks[0]|]) <= CHUNK_BYTES
    ensures IsCut(chunks[1..], s[|chunks[0]|..])
  {
    hide Utf16Bytes;
    var k := |chunks[0]|;
    assert Join(chunks) == chunks[0] + Join(chunks[1..]);
    assert s[..k] == chunks[0] && s[k..] == Join(chunks[1..]);
    assert chunks[0] in chunks;
    assert forall c :: c in chunks[1..] ==> c in chunks;
  }

  /** No other cut at code-point boundaries uses fewer pieces. */
  lemma {:induction false} GreedyIsOptimal(s: string, chunks: seq<string>)
    requires IsCut(chunks, s)
    ensures |Pieces(s)| <= |chunks|
    decreases |chunks|
  {
    hide Fit, Utf16Bytes, IsCut, Join;
    if s != "" {
      CutTail(s, chunks);
      var k := |chunks[0]|;
      var n := Fit(s, CHUNK_BYTES);
      FitCovers(s, k, CHUNK_BYTES);
      GreedyIsOptimal(s[k..], chunks[1..]);
      assert s[k..][n - k..] == s[n..];
      PiecesShrink(s[k..], n - k);
    }
  }

  /** The greedy cut is itself such a cut. */
  lemma PiecesAreACut(s: string)
    ensures IsCut(Pieces(s), s)
  {
    JoinPieces(s);
    PieceSizes(s);
  }
}
