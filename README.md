# Fragment assembly of a text-to-speech relay, in Dafny

The service turns text into speech by handing it to an external provider in
pieces and joining the audio the provider returns. This project models the
part of `main.py` that does real work, proves what it guarantees and pins
down its quirks:

- **Text chunker** (`split_text_into_chunks`). It cuts the text into
  consecutive slices of at most `max_length` characters. The `/tts` endpoint
  uses 280 and `/tts-openai` uses 999.
- **MP3 stitcher** (`concatenate_base64_mp3`, over already decoded
  fragments). The first fragment is kept whole. A later fragment that opens
  with an ID3v2 tag loses `10 + size` leading bytes. Here `size` is header
  bytes 6..9 read as a plain big-endian integer.
- **WAV stitcher** (`concatenate_wav_files`). The first fragment is kept
  whole. A later fragment adds what follows its 44-byte header, and only
  when it is longer than 44 bytes. The RIFF size at offset 4 and the data
  size at offset 40 are then rewritten as 4-byte little-endian values, with
  the OverflowError that `int.to_bytes` raises.
- **Output-mode dispatch** of `/tts`. The format is lower-cased. `binary`
  returns the bytes as `audio/mpeg`, `base64` returns an `audio_base64`
  field, and anything else is an HTTP 400.
- **Endpoint wiring**. The provider is called once per chunk, in order, and
  the first failure aborts the request.

Modules: `Seqs` (Python's lenient slicing, joining), `Bytes` (octets,
`int.from_bytes` big-endian, `int.to_bytes(4, 'little')`), `Errors`
(exceptions as values), `TextChunker`, `Mp3Stitcher`, `WavStitcher`,
`ResponseEncoder`, `Endpoints`. Python rebinds immutable `str` and `bytes`
values inside loops. So each loop is a Dafny method over `seq` values, and
each method is proved against a specification function or predicate, with
lemmas about that function.

Two consequences of the code are worth stating on their own:

- For a well-formed synchsafe size field (section 3.1 of the ID3v2.4.0
  structure document) the plain big-endian read can only overstate the
  size. It equals the synchsafe value only when the three high size bytes
  are zero, so audio after a tag of 128 bytes or more is dropped too
  (`Mp3Stitcher.PlainSizeOverstates`, `Mp3Stitcher.TagOf128Bytes`). The
  model keeps the plain read, as the code does.
- A joined WAV file shorter than 44 bytes makes `to_bytes` raise
  OverflowError (`WavStitcher.RewriteHeaderSpec`).

## Model

| member | source | states |
|---|---|---|
| Seqs.Take | main.py:36 | `s[:k]` is the prefix of `s` with min(k, len(s)) elements: a bound past the end is clipped, not an error |
| Seqs.Drop | main.py:37 | `s[k:]` has len(s) − min(k, len(s)) elements and completes `s[:k]` to `s`, so it is empty past the end |
| Seqs.Slice | main.py:73 | `s[i:j]` has min(j, len(s)) − min(i, len(s)) elements, the k-th being `s[i + k]`: both bounds are clipped |
| Bytes.BigEndian | main.py:73 | `int.from_bytes(..., 'big')` over any number of bytes, the empty slice included, reads a value below 256^n |
| Bytes.BigEndianFour | main.py:73 | four bytes read big-endian weigh 2^24, 2^16, 2^8 and 1 |
| Bytes.LittleEndianRoundTrip | main.py:153 | reading back the 4-byte little-endian encoding of any 32-bit value gives the value |
| Bytes.LittleEndianDecodeEncode | main.py:156 | any 4 bytes are the little-endian encoding of the value they read as, so the codec is a bijection on 32-bit values |
| Bytes.ToBytes4Little | main.py:153 | `to_bytes(4, 'little')` succeeds exactly for 0 <= v < 2^32, with 4 bytes that read back as v; otherwise it raises OverflowError |
| TextChunker.SplitTextIntoChunks | main.py:33-39 | the chunks joined in order give the text back; each chunk is non-empty and at most max_length long; all but the last are exactly max_length; empty text gives no chunks; there are ceil(len/max_length) chunks; the loop needs max_length > 0 unless the text is empty |
| TextChunker.ChunkingExtend | main.py:36-38 | appending one more slice of at most max_length characters after full slices keeps a valid chunking |
| TextChunker.FirstChunk | main.py:36-38 | the first chunk of any such chunking is `text[:max_length]`, and the rest chunk `text[max_length:]` |
| TextChunker.ChunkingUnique | main.py:33-39 | the chunking properties admit exactly one chunk list, so they determine the chunker's output |
| TextChunker.ChunkBounds | main.py:33-39 | k chunks cover more than (k-1)·max_length and at most k·max_length characters |
| TextChunker.ChunkCount | main.py:33-39 | the number of chunks is ceil(len(text)/max_length) |
| TextChunker.FiveHundredCharacters | main.py:33-39 | 500 characters at the default 280 give chunks `text[:280]` and `text[280:]`, of 280 and 220 characters |
| Mp3Stitcher.HasId3Tag | main.py:71-72 | definition; a fragment has a tag exactly when its first three bytes exist and are 0x49 0x44 0x33 ("ID3"); the header-only test is characterised by `HeaderDecidesTag` |
| Mp3Stitcher.DeclaredTagSize | main.py:73 | definition; the declared size always fits in 32 bits; characterised by `DeclaredSizeOfFullHeader` and `DeclaredSizeOfShortHeader` |
| Mp3Stitcher.StripTag | main.py:72-74 | definition; never lengthens a fragment, takes min(len, 10 + declared size) bytes off a tagged one and leaves an untagged one as it is; characterised by `StripTagDropsTag` |
| Mp3Stitcher.Stitched | main.py:63-76 | definition; the output begins with the first fragment; characterised by `FirstFragmentKept`, `StitchAppend` and `UntaggedIsPlainConcatenation` |
| Mp3Stitcher.ConcatenateMp3 | main.py:63-76 | the loop, which inspects only the 10-byte header slice, returns the first fragment followed by the tag-stripped later fragments |
| Mp3Stitcher.HeaderDecidesTag | main.py:71-73 | the 10-byte header slice gives the same "ID3" test and the same size bytes as the whole fragment |
| Mp3Stitcher.StripTagDropsTag | main.py:72-74 | a later fragment loses exactly min(len, 10 + declared size) leading bytes when it opens with "ID3", otherwise none, and what is left is its suffix |
| Mp3Stitcher.DeclaredSizeOfFullHeader | main.py:73 | with 10 or more bytes, the declared size is bytes 6..9 as a plain 32-bit big-endian integer (8 bits per byte, not synchsafe) |
| Mp3Stitcher.DeclaredSizeOfShortHeader | main.py:71-73 | a fragment cut short declares a size from the bytes present: 0 for 6 bytes or fewer, bytes 6..7 big-endian for 8 bytes |
| Mp3Stitcher.PlainSizeOverstates | main.py:73 | for a well-formed synchsafe size field the plain reading is at least the synchsafe size, and equal to it exactly when the three high bytes are zero |
| Mp3Stitcher.TagOf128Bytes | main.py:72-74 | a tag whose synchsafe size is 128 makes the fragment lose 266 bytes instead of 138 |
| Mp3Stitcher.FirstFragmentKept | main.py:67-68 | the output starts with the first fragment unchanged, and a single fragment is returned as it is |
| Mp3Stitcher.StitchAppend | main.py:69-75 | one more fragment appends exactly its tag-stripped contribution to the output |
| Mp3Stitcher.UntaggedIsPlainConcatenation | main.py:70-75 | when no later fragment opens with "ID3", the output is the plain concatenation and its length is the sum of the fragment lengths |
| Mp3Stitcher.ThousandAndEightHundred | main.py:63-76 | fragments of 1000 and 800 bytes, the second untagged, stitch to 1800 bytes |
| Mp3Stitcher.SecondFragmentTagged | main.py:71-75 | a tagged second fragment whose declared tag fits in it contributes everything after its first 10 + S bytes |
| WavStitcher.ChunkData | main.py:145-146 | definition; a later chunk contributes its last len − min(len, 44) bytes, so nothing when it is 44 bytes or fewer; characterised by `AssembleAppend` |
| WavStitcher.Assembled | main.py:140-146 | definition; the joined bytes begin with the first chunk whole; characterised by `AssembleAppend` |
| WavStitcher.RewriteHeader | main.py:149-156 | definition; a success keeps the length and a failure is OverflowError; characterised by `RewriteHeaderSpec`, `RewriteKeepsConsistentHeader`, `RewriteIdempotent` and `RewriteKeepsData` |
| WavStitcher.Stitched | main.py:131-158 | definition; a success is as long as the assembled bytes and a failure is OverflowError; characterised by `TwoFragments` |
| WavStitcher.ConcatenateWavFiles | main.py:131-158 | the loop and the header rewrite return the assembled file or OverflowError, and an empty list gives empty bytes |
| WavStitcher.AssembleAppend | main.py:144-146 | a later chunk of at most 44 bytes adds nothing; a longer one adds exactly `chunk[44:]` |
| WavStitcher.RewriteHeaderSpec | main.py:149-156 | the rewrite raises OverflowError exactly when length < 44 or length − 8 >= 2^32; otherwise the length is kept, bytes 4..7 read little-endian as length − 44 + 36, bytes 40..43 as length − 44, and no other byte changes |
| WavStitcher.RewriteKeepsConsistentHeader | main.py:149-156 | a file whose size fields already match its length comes out unchanged |
| WavStitcher.RewriteIdempotent | main.py:149-156 | rewriting the header of a rewritten file changes nothing |
| WavStitcher.RewriteKeepsData | main.py:153-156 | the rewrite leaves every byte after the 44-byte header as it was |
| WavStitcher.TwoFragments | main.py:131-158 | fragments of 44 + d1 and 44 + d2 bytes join to 44 + d1 + d2 bytes, with sizes d1 + d2 + 36 and d1 + d2 and both data parts in order |
| ResponseEncoder.Lower | main.py:82 | definition; keeps the length and leaves no ASCII capital letter; characterised by `LowerAt`, `LowerMatches` and `LowerIdempotent` |
| ResponseEncoder.LowerAt | main.py:82 | lower-casing keeps the length and lower-cases each position on its own |
| ResponseEncoder.LowerMatches | main.py:82 | a string lower-cases to a lower-case word exactly when it spells that word in any mix of cases |
| ResponseEncoder.LowerIdempotent | main.py:82 | lower-casing twice is lower-casing once |
| ResponseEncoder.SelectOutput | main.py:96-106 | definition; the only error is HTTP 400 with the invalid-format detail, a binary answer is the audio as `audio/mpeg` and a JSON answer is the encoded audio in `audio_base64`; characterised by `OutputModeSelection` |
| ResponseEncoder.OutputModeSelection | main.py:96-106 | the answer is a success exactly for "binary" and "base64" in any case; anything else is an HTTP 400 error, not a crash; formats that differ only in case get the same answer |
| ResponseEncoder.BinaryModeKeepsBytes | main.py:96-99 | binary mode answers with the assembled bytes themselves as `audio/mpeg` |
| ResponseEncoder.Base64ModeRoundTrip | main.py:100-103 | base64 mode answers with an `audio_base64` field that any inverse of the encoder decodes back to the assembled bytes |
| ResponseEncoder.XmlIsInvalidFormat | main.py:104-106 | the unknown format "xml" gets the HTTP 400 error with its detail message |
| Endpoints.SynthesizeAll | main.py:88-91 | one provider call per chunk, in order: a success holds one fragment per chunk, each the provider's answer for that chunk; a failure is the error of the first failing chunk, and every earlier chunk succeeded |
| Endpoints.TtsEndpoint | main.py:80-106 | empty text makes no provider call; a success means the format was valid; with a provider that never fails, success is exactly a valid format; with a valid format, an error is a provider error for one of the text's chunks |
| Endpoints.TtsOpenaiEndpoint | main.py:162-179 | empty text answers with the encoding of empty bytes; a success is always an `audio_base64` field; an error is OverflowError or a provider error for one of the text's chunks |

## Left out

- The FastAPI application, CORS middleware, request models, async response plumbing and the uvicorn start-up (main.py:1-30, 79-80, 161-162, 181-184) are framework and I/O.
- `generate_audio` and `generate_audio_openai` are outbound HTTP calls with their own credentials and JSON parsing. Each is a parameter `synthesize` that gives a chunk's decoded fragment or the exception the call raises.
- The base64 codec (`b64decode` and `b64encode`) is a library call. Fragments are taken after decoding. The encoder is a parameter, and the round trip is proved for any decoder that inverts it. A malformed base64 payload from the provider (binascii.Error) is not modelled.
- Whether the stitched MP3 or WAV plays in a decoder is a property of those formats and is not stated.
- ResponseEncoder.Lower: lower-cases ASCII letters only, where `str.lower` covers all of Unicode. No non-ASCII character lower-cases to a single letter of "binary" or "base64", so the dispatch decision is the same.
- TextChunker.SplitTextIntoChunks: requires `max_length > 0` or empty text. With a non-positive `max_length` and some text, the Python loop never ends.
- Endpoints.TtsEndpoint: the contract does not give the full answer for non-empty text. The answer is `SelectOutput` applied to `Mp3Stitcher.Stitched` of the fragments, and the fragments are not visible in the contract. That part is carried by the contracts of the methods it calls.
- Endpoints.TtsOpenaiEndpoint: as for `TtsEndpoint`, the encoded payload for non-empty text is carried by `WavStitcher.ConcatenateWavFiles`, not restated.
