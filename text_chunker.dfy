/** `split_text_into_chunks`: cuts the request text into consecutive slices
    of at most `max_length` characters, with no regard for word boundaries,
    so that each slice can be sent to a speech provider on its own. */
module TextChunker {
  import opened Seqs

  /** `cs` cuts `text` into pieces of at most `maxLength` characters, in
      order, where only the last piece may be shorter than `maxLength` and
      no piece is empty. */
  predicate IsChunking(text: string, maxLength: int, cs: seq<string>)
  {
    && Flatten(cs) == text
    && (forall i | 0 <= i < |cs| :: 0 < |cs[i]| <= maxLength)
    && (forall i | 0 <= i < |cs| - 1 :: |cs[i]| == maxLength)
  }

  /** The loop of `split_text_into_chunks`: `chunk = text[:max_length]`,
      `text = text[max_length:]`, until the text is used up. The loop only
      ends when `max_length` is positive or the text is empty (with a
      non-positive `max_length` and some text Python never leaves it). */
  method SplitTextIntoChunks(text: string, maxLength: int) returns (chunks: seq<string>)
    requires 0 < maxLength || text == ""
    ensures IsChunking(text, maxLength, chunks)
    ensures chunks == [] <==> text == ""
    ensures 0 < maxLength ==> |chunks| == (|text| + maxLength - 1) / maxLength
  {
    chunks := [];
    var rest := text;
    while rest != ""
      invariant Progress(text, maxLength, chunks, rest)
      decreases |rest|
    {
      assert 0 < maxLength;
      var chunk := Take(rest, maxLength);
      ChunkStep(text, maxLength, chunks, rest);
      rest := Drop(rest, maxLength);
      chunks := chunks + [chunk];
    }
    assert Flatten(chunks) == text;
    if chunks != [] {
      assert Flatten(chunks) == chunks[0] + Flatten(chunks[1..]);
      assert |chunks[0]| > 0;
    }
    if 0 < maxLength {
      ChunkCount(text, maxLength, chunks);
    }
  }

  /** The loop invariant: the pieces cut so far, followed by the text still
      to cut, give the text back; they form a chunking of what they cover;
      and while text is left they are all full. */
  predicate Progress(text: string, maxLength: int, chunks: seq<string>, rest: string)
  {
    && Flatten(chunks) + rest == text
    && IsChunking(Flatten(chunks), maxLength, chunks)
    && (rest != "" ==> AllFull(chunks, maxLength))
  }

  /** One turn of the loop keeps the invariant. */
  lemma ChunkStep(text: string, maxLength: int, chunks: seq<string>, rest: string)
    requires 0 < maxLength && rest != ""
    requires Progress(text, maxLength, chunks, rest)
    ensures Progress(text, maxLength, chunks + [Take(rest, maxLength)], Drop(rest, maxLength))
  {
    var chunk := Take(rest, maxLength);
    ChunkingExtend(chunks, maxLength, chunk);
    assert rest == chunk + Drop(rest, maxLength);
  }

  /** Every piece is exactly `maxLength` long. */
  predicate AllFull(cs: seq<string>, maxLength: int)
  {
    forall i | 0 <= i < |cs| :: |cs[i]| == maxLength
  }

  /** After full pieces, one more piece of at most `maxLength` characters
      still makes a chunking, which stays open to more pieces when it is
      full too. */
  lemma ChunkingExtend(cs: seq<string>, maxLength: int, piece: string)
    requires IsChunking(Flatten(cs), maxLength, cs) && AllFull(cs, maxLength)
    requires 0 < |piece| <= maxLength
    ensures IsChunking(Flatten(cs) + piece, maxLength, cs + [piece])
    ensures |piece| == maxLength ==> AllFull(cs + [piece], maxLength)
    ensures Flatten(cs + [piece]) == Flatten(cs) + piece
  {
    FlattenAppend(cs, piece);
    assert forall i | 0 <= i < |cs| :: (cs + [piece])[i] == cs[i];
  }

  /** The first piece of any chunking is the first `maxLength` characters
      (or the whole text when it is shorter), and the other pieces chunk
      what follows it. */
  lemma FirstChunk(text: string, maxLength: int, cs: seq<string>)
    requires IsChunking(text, maxLength, cs) && cs != []
    ensures 0 < maxLength
    ensures cs[0] == text[..Min(maxLength, |text|)]
    ensures IsChunking(text[|cs[0]|..], maxLength, cs[1..])
  {
    assert text == cs[0] + Flatten(cs[1..]);
    if |cs| > 1 {
      assert cs[1..][0] == cs[1];
      assert Flatten(cs[1..]) == cs[1] + Flatten(cs[2..]);
    }
    assert forall i | 0 <= i < |cs[1..]| :: cs[1..][i] == cs[i + 1];
  }

  /** A text has exactly one chunking for a given `maxLength`, so the
      properties in `IsChunking` pin the output of `SplitTextIntoChunks`
      down completely. */
  lemma {:induction false} ChunkingUnique(text: string, maxLength: int, a: seq<string>, b: seq<string>)
    requires IsChunking(text, maxLength, a) && IsChunking(text, maxLength, b)
    ensures a == b
    decreases |text|
  {
    if a != [] && b != [] {
      FirstChunk(text, maxLength, a);
      FirstChunk(text, maxLength, b);
      ChunkingUnique(text[|a[0]|..], maxLength, a[1..], b[1..]);
      assert a == [a[0]] + a[1..] && b == [b[0]] + b[1..];
    }
  }

  lemma MulMonotone(d: int, a: int, b: int)
    requires 0 < d && a <= b
    ensures d * a <= d * b
  {
  }

  /** Euclidean division has one quotient. */
  lemma DivUnique(x: int, d: int, q: int)
    requires 0 < d && d * q <= x < d * q + d
    ensures x / d == q
  {
    var q' := x / d;
    assert x == d * q' + x % d && 0 <= x % d < d;
    if q' < q {
      MulMonotone(d, q' + 1, q);
    } else if q' > q {
      MulMonotone(d, q + 1, q');
    }
  }

  /** A chunking of `text` into `k` pieces covers more than `k - 1` full
      pieces and at most `k` of them. */
  lemma {:induction false} ChunkBounds(text: string, maxLength: int, cs: seq<string>)
    requires IsChunking(text, maxLength, cs)
    ensures |text| <= maxLength * |cs|
    ensures cs != [] ==> maxLength * (|cs| - 1) < |text|
    decreases |cs|
  {
    if cs != [] {
      FirstChunk(text, maxLength, cs);
      var rest := text[|cs[0]|..];
      ChunkBounds(rest, maxLength, cs[1..]);
      if |cs| == 1 {
        assert Flatten(cs[1..]) == "";
      } else {
        assert |text| == maxLength + |rest|;
        assert maxLength * (|cs| - 1) == maxLength * (|cs| - 2) + maxLength;
        assert maxLength * |cs| == maxLength * (|cs| - 1) + maxLength;
      }
    }
  }

  /** A chunking has ceil(|text| / maxLength) pieces. */
  lemma ChunkCount(text: string, maxLength: int, cs: seq<string>)
    requires 0 < maxLength
    requires IsChunking(text, maxLength, cs)
    ensures |cs| == (|text| + maxLength - 1) / maxLength
  {
    ChunkBounds(text, maxLength, cs);
    if cs == [] {
      assert text == "";
    } else {
      assert maxLength * |cs| == maxLength * (|cs| - 1) + maxLength;
    }
    DivUnique(|text| + maxLength - 1, maxLength, |cs|);
  }

  /** 500 characters at the default ceiling of 280 make one chunk of 280
      characters followed by one of 220. */
  lemma FiveHundredCharacters(text: string, cs: seq<string>)
    requires |text| == 500
    requires IsChunking(text, 280, cs)
    ensures |cs| == 2 && |cs[0]| == 280 && |cs[1]| == 220
    ensures cs[0] == text[..280] && cs[1] == text[280..]
  {
    ChunkCount(text, 280, cs);
    FirstChunk(text, 280, cs);
    FirstChunk(text[280..], 280, cs[1..]);
  }
}
