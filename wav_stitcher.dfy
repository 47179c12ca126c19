/** `concatenate_wav_files`: joins the WAV fragments returned for the text
    chunks into one RIFF/WAVE file. Every fragment is taken to carry the
    canonical 44-byte PCM header; the first fragment is kept whole, later
    ones contribute only what follows their header, and the two size fields
    of the first header are then rewritten for the joined length. */
module WavStitcher {
  import opened Seqs
  import opened Bytes
  import opened Errors

  /** Length of the canonical PCM WAV header. */
  const WAV_HEADER_SIZE: nat := 44

  /** Offset of the RIFF chunk size field (file length minus 8). */
  const RIFF_SIZE_OFFSET: nat := 4

  /** Offset of the data sub-chunk size field. */
  const DATA_SIZE_OFFSET: nat := 40

  /** The RIFF chunk size exceeds the data size by the 36 header bytes that
      follow the RIFF size field. */
  const RIFF_OVERHEAD: nat := 36

  /** What a later fragment contributes: `chunk[44:]` when it is longer
      than the header, nothing otherwise. */
  function ChunkData(chunk: seq<byte>): (r: seq<byte>)
    ensures |r| == |chunk| - Min(|chunk|, WAV_HEADER_SIZE)
    ensures r == chunk[|chunk| - |r|..]
  {
    if |chunk| > WAV_HEADER_SIZE then chunk[WAV_HEADER_SIZE..] else []
  }

  /** The contributions of `chunks`, in order. */
  function JoinData(chunks: seq<seq<byte>>): seq<byte>
  {
    if chunks == [] then []
    else JoinData(chunks[..|chunks| - 1]) + ChunkData(chunks[|chunks| - 1])
  }

  /** `result` after the loop of `concatenate_wav_files`, before the header
      is rewritten. */
  function Assembled(chunks: seq<seq<byte>>): (r: seq<byte>)
    ensures chunks != [] ==> chunks[0] <= r
  {
    if chunks == [] then [] else chunks[0] + JoinData(chunks[1..])
  }

  /** The two slice reassignments that store the sizes, with the
      OverflowError that `to_bytes` raises when a size does not fit. */
  function RewriteHeader(audio: seq<byte>): (r: Result<seq<byte>>)
    ensures r.Ok? ==> |r.value| == |audio|
    ensures r.Err? ==> r.error == OverflowError
  {
    var dataSize := |audio| - WAV_HEADER_SIZE;
    var totalSize := dataSize + RIFF_OVERHEAD;
    match ToBytes4Little(totalSize)
    case Err(e) => Err(e)
    case Ok(totalField) =>
      var withRiffSize := Take(audio, RIFF_SIZE_OFFSET) + totalField + Drop(audio, RIFF_SIZE_OFFSET + 4);
      match ToBytes4Little(dataSize)
      case Err(e) => Err(e)
      case Ok(dataField) =>
        Ok(Take(withRiffSize, DATA_SIZE_OFFSET) + dataField + Drop(withRiffSize, DATA_SIZE_OFFSET + 4))
  }

  /** What `concatenate_wav_files` returns or raises. */
  function Stitched(chunks: seq<seq<byte>>): (r: Result<seq<byte>>)
    ensures r.Ok? ==> |r.value| == |Assembled(chunks)|
    ensures r.Err? ==> r.error == OverflowError
  {
    if chunks == [] then Ok([]) else RewriteHeader(Assembled(chunks))
  }

  /** `concatenate_wav_files`: an empty list gives empty bytes; otherwise the
      loop extends `result` and the header fields are overwritten. */
  method ConcatenateWavFiles(audioChunks: seq<seq<byte>>) returns (r: Result<seq<byte>>)
    ensures r == Stitched(audioChunks)
    ensures audioChunks == [] ==> r == Ok([])
  {
    if audioChunks == [] {
      return Ok([]);
    }
    var result := audioChunks[0];
    assert audioChunks[..1] == [audioChunks[0]];
    for i := 1 to |audioChunks|
      invariant result == Assembled(audioChunks[..i])
    {
      var chunk := audioChunks[i];
      assert audioChunks[..i + 1] == audioChunks[..i] + [chunk];
      AssembleAppend(audioChunks[..i], chunk);
      if |chunk| > WAV_HEADER_SIZE {
        result := result + chunk[WAV_HEADER_SIZE..];
      }
    }
    assert audioChunks[..|audioChunks|] == audioChunks;
    var dataSize := |result| - WAV_HEADER_SIZE;
    var totalSize := dataSize + RIFF_OVERHEAD;
    var totalField := ToBytes4Little(totalSize);
    if totalField.Err? {
      return Err(totalField.error);
    }
    result := Take(result, RIFF_SIZE_OFFSET) + totalField.value + Drop(result, RIFF_SIZE_OFFSET + 4);
    var dataField := ToBytes4Little(dataSize);
    if dataField.Err? {
      return Err(dataField.error);
    }
    result := Take(result, DATA_SIZE_OFFSET) + dataField.value + Drop(result, DATA_SIZE_OFFSET + 4);
    r := Ok(result);
  }

  /** A later chunk of at most 44 bytes adds nothing; a longer one adds
      exactly what follows its header. */
  lemma AssembleAppend(chunks: seq<seq<byte>>, chunk: seq<byte>)
    requires chunks != []
    ensures |chunk| <= WAV_HEADER_SIZE ==> Assembled(chunks + [chunk]) == Assembled(chunks)
    ensures |chunk| > WAV_HEADER_SIZE ==> Assembled(chunks + [chunk]) == Assembled(chunks) + chunk[WAV_HEADER_SIZE..]
  {
    var later := chunks[1..] + [chunk];
    assert (chunks + [chunk])[0] == chunks[0];
    assert (chunks + [chunk])[1..] == later;
    assert Assembled(chunks + [chunk]) == chunks[0] + JoinData(later);
    assert Assembled(chunks) == chunks[0] + JoinData(chunks[1..]);
    assert later[..|later| - 1] == chunks[1..] && later[|later| - 1] == chunk;
    assert JoinData(later) == JoinData(chunks[1..]) + ChunkData(chunk);
    if |chunk| <= WAV_HEADER_SIZE {
      assert ChunkData(chunk) == [];
      assert JoinData(later) == JoinData(chunks[1..]);
    } else {
      assert ChunkData(chunk) == chunk[WAV_HEADER_SIZE..];
    }
  }

  /** The bytes `RewriteHeader` leaves alone. */
  predicate OutsideSizeFields(i: int)
  {
    !(RIFF_SIZE_OFFSET <= i < RIFF_SIZE_OFFSET + 4) && !(DATA_SIZE_OFFSET <= i < DATA_SIZE_OFFSET + 4)
  }

  /** The header rewrite fails with OverflowError exactly when the audio is
      shorter than a header or its RIFF size needs more than 32 bits.
      Otherwise it keeps the length, stores length - 8 at offset 4 and
      length - 44 at offset 40, both little-endian, and changes no other
      byte. */
  lemma RewriteHeaderSpec(audio: seq<byte>)
    ensures RewriteHeader(audio).Ok? <==> WAV_HEADER_SIZE <= |audio| && |audio| - 8 < TWO_POW_32
    ensures RewriteHeader(audio).Err? ==> RewriteHeader(audio).error == OverflowError
    ensures RewriteHeader(audio).Ok? ==>
      var out := RewriteHeader(audio).value;
      && |out| == |audio|
      && LittleEndian(out[RIFF_SIZE_OFFSET..RIFF_SIZE_OFFSET + 4]) == |audio| - WAV_HEADER_SIZE + RIFF_OVERHEAD
      && LittleEndian(out[DATA_SIZE_OFFSET..DATA_SIZE_OFFSET + 4]) == |audio| - WAV_HEADER_SIZE
      && (forall i | 0 <= i < |audio| && OutsideSizeFields(i) :: out[i] == audio[i])
  {
    if WAV_HEADER_SIZE <= |audio| && |audio| - 8 < TWO_POW_32 {
      var totalField := ToBytes4Little(|audio| - 8).value;
      var dataField := ToBytes4Little(|audio| - 44).value;
      var mid := audio[..4] + totalField + audio[8..];
      assert |mid| == |audio|;
      var out := mid[..40] + dataField + mid[44..];
      assert RewriteHeader(audio) == Ok(out);
      assert out[4..8] == totalField;
      assert out[40..44] == dataField;
    }
  }

  /** Audio whose size fields already hold its length is left as it is. */
  lemma RewriteKeepsConsistentHeader(audio: seq<byte>)
    requires WAV_HEADER_SIZE <= |audio| && |audio| - 8 < TWO_POW_32
    requires LittleEndian(audio[RIFF_SIZE_OFFSET..RIFF_SIZE_OFFSET + 4]) == |audio| - 8
    requires LittleEndian(audio[DATA_SIZE_OFFSET..DATA_SIZE_OFFSET + 4]) == |audio| - WAV_HEADER_SIZE
    ensures RewriteHeader(audio) == Ok(audio)
  {
    RewriteHeaderSpec(audio);
    var out := RewriteHeader(audio).value;
    LittleEndianDecodeEncode(audio[4..8]);
    LittleEndianDecodeEncode(out[4..8]);
    LittleEndianDecodeEncode(audio[40..44]);
    LittleEndianDecodeEncode(out[40..44]);
    assert out[4..8] == audio[4..8];
    assert out[40..44] == audio[40..44];
    forall i | 0 <= i < |audio|
      ensures out[i] == audio[i]
    {
      if 4 <= i < 8 {
        assert out[i] == out[4..8][i - 4];
      } else if 40 <= i < 44 {
        assert out[i] == out[40..44][i - 40];
      }
    }
    assert out == audio;
  }

  /** Rewriting the header of a rewritten file changes nothing. */
  lemma RewriteIdempotent(audio: seq<byte>)
    requires RewriteHeader(audio).Ok?
    ensures RewriteHeader(RewriteHeader(audio).value) == RewriteHeader(audio)
  {
    RewriteHeaderSpec(audio);
    RewriteKeepsConsistentHeader(RewriteHeader(audio).value);
  }

  /** The rewrite touches the header only: the data after it is kept. */
  lemma RewriteKeepsData(audio: seq<byte>)
    requires RewriteHeader(audio).Ok?
    ensures |audio| >= WAV_HEADER_SIZE
    ensures RewriteHeader(audio).value[WAV_HEADER_SIZE..] == audio[WAV_HEADER_SIZE..]
  {
    RewriteHeaderSpec(audio);
    var out := RewriteHeader(audio).value;
    forall i | WAV_HEADER_SIZE <= i < |out|
      ensures out[i] == audio[i]
    {
      assert OutsideSizeFields(i);
    }
  }

  /** Two fragments with 44-byte headers and d1 and d2 data bytes join to
      44 + d1 + d2 bytes: the first header with sizes d1 + d2 + 36 and
      d1 + d2, then both data parts. */
  lemma TwoFragments(first: seq<byte>, second: seq<byte>, d1: nat, d2: nat)
    requires |first| == WAV_HEADER_SIZE + d1 && |second| == WAV_HEADER_SIZE + d2
    requires d1 + d2 + RIFF_OVERHEAD < TWO_POW_32
    ensures Stitched([first, second]).Ok?
    ensures var out := Stitched([first, second]).value;
      && |out| == WAV_HEADER_SIZE + d1 + d2
      && LittleEndian(out[4..8]) == d1 + d2 + RIFF_OVERHEAD
      && LittleEndian(out[40..44]) == d1 + d2
      && out[WAV_HEADER_SIZE..] == first[WAV_HEADER_SIZE..] + second[WAV_HEADER_SIZE..]
  {
    var joined := first + second[WAV_HEADER_SIZE..];
    assert Assembled([first, second]) == joined by {
      assert [first] + [second] == [first, second];
      assert Assembled([first]) == first by {
        assert [first][1..] == [];
      }
      AssembleAppend([first], second);
    }
    assert |joined| == WAV_HEADER_SIZE + d1 + d2;
    assert joined[WAV_HEADER_SIZE..] == first[WAV_HEADER_SIZE..] + second[WAV_HEADER_SIZE..];
    RewriteHeaderSpec(joined);
    RewriteKeepsData(joined);
  }
}
