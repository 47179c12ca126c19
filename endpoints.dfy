/** How the two endpoints wire the core together: chunk the text, call the
    provider once per chunk in order, stitch the fragments, answer.

    The provider calls (`generate_audio`, `generate_audio_openai`) are HTTP
    requests; each is a parameter here that maps a chunk to its decoded
    fragment or to the HTTPException the call raises. The base64 encoder is
    a parameter too. */
module Endpoints {
  import opened Bytes
  import opened Errors
  import TextChunker
  import Mp3Stitcher
  import WavStitcher
  import opened ResponseEncoder

  /** Chunk ceiling of the MP3 provider (`max_length` default). */
  const TTS_CHUNK_LENGTH: nat := 280

  /** Chunk ceiling of the WAV provider. */
  const OPENAI_CHUNK_LENGTH: nat := 999

  /** The per-chunk loops of both endpoints: one provider call per chunk, in
      chunk order; the first call that raises ends the request with its
      error, and the fragments already fetched are dropped. */
  method SynthesizeAll(chunks: seq<string>, synthesize: string -> Result<seq<byte>>)
    returns (r: Result<seq<seq<byte>>>)
    ensures r.Ok? <==> forall i | 0 <= i < |chunks| :: synthesize(chunks[i]).Ok?
    ensures r.Ok? ==>
      && |r.value| == |chunks|
      && (forall i | 0 <= i < |chunks| :: r.value[i] == synthesize(chunks[i]).value)
    ensures r.Err? ==> exists k | 0 <= k < |chunks| ::
      && synthesize(chunks[k]) == Err(r.error)
      && forall j | 0 <= j < k :: synthesize(chunks[j]).Ok?
  {
    var fragments: seq<seq<byte>> := [];
    for i := 0 to |chunks|
      invariant |fragments| == i
      invariant forall j | 0 <= j < i :: synthesize(chunks[j]).Ok? && fragments[j] == synthesize(chunks[j]).value
    {
      var fragment := synthesize(chunks[i]);
      if fragment.Err? {
        return Err(fragment.error);
      }
      fragments := fragments + [fragment.value];
    }
    r := Ok(fragments);
  }

  /** `tts_endpoint`: MP3 fragments for chunks of at most 280 characters,
      answered as binary or base64. As in the source, the output format is
      only looked at once all the audio is assembled, so a provider failure
      is reported even when the format is invalid. */
  method TtsEndpoint(text: string, outputFormat: string,
                     synthesize: string -> Result<seq<byte>>, encode: seq<byte> -> string)
    returns (r: Result<Response>)
    ensures text == "" ==> r == SelectOutput(outputFormat, [], encode)
    ensures r.Ok? ==> Lower(outputFormat) == MODE_BINARY || Lower(outputFormat) == MODE_BASE64
    ensures (forall c :: synthesize(c).Ok?) ==>
      (r.Ok? <==> Lower(outputFormat) == MODE_BINARY || Lower(outputFormat) == MODE_BASE64)
    ensures r.Err? && (Lower(outputFormat) == MODE_BINARY || Lower(outputFormat) == MODE_BASE64) ==>
      exists cs: seq<string>, k | TextChunker.IsChunking(text, TTS_CHUNK_LENGTH, cs) && 0 <= k < |cs| ::
        synthesize(cs[k]) == Err(r.error)
  {
    var chunks := TextChunker.SplitTextIntoChunks(text, TTS_CHUNK_LENGTH);
    var fragments := SynthesizeAll(chunks, synthesize);
    if fragments.Err? {
      return Err(fragments.error);
    }
    var audio := Mp3Stitcher.ConcatenateMp3(fragments.value);
    if text == "" {
      assert chunks == [] && fragments.value == [] && audio == [];
    }
    r := SelectOutput(outputFormat, audio, encode);
  }

  /** `tts_openai_endpoint`: WAV fragments for chunks of at most 999
      characters, always answered in the `audio_base64` field. A joined file
      too short for a header, or too long for 32-bit sizes, ends the
      request with the OverflowError of the header rewrite. */
  method TtsOpenaiEndpoint(text: string, synthesize: string -> Result<seq<byte>>, encode: seq<byte> -> string)
    returns (r: Result<Response>)
    ensures text == "" ==> r == Ok(Json(AUDIO_BASE64_FIELD, encode([])))
    ensures r.Ok? ==> r.value.Json? && r.value.field == AUDIO_BASE64_FIELD
    ensures r.Err? ==>
      || r.error == OverflowError
      || exists cs: seq<string>, k | TextChunker.IsChunking(text, OPENAI_CHUNK_LENGTH, cs) && 0 <= k < |cs| ::
           synthesize(cs[k]) == Err(r.error)
  {
    var chunks := TextChunker.SplitTextIntoChunks(text, OPENAI_CHUNK_LENGTH);
    var fragments := SynthesizeAll(chunks, synthesize);
    if fragments.Err? {
      return Err(fragments.error);
    }
    var finalAudio := WavStitcher.ConcatenateWavFiles(fragments.value);
    if finalAudio.Err? {
      WavStitcher.RewriteHeaderSpec(WavStitcher.Assembled(fragments.value));
      return Err(finalAudio.error);
    }
    r := Ok(Json(AUDIO_BASE64_FIELD, encode(finalAudio.value)));
  }
}
