/** The output-format dispatch of the `/tts` endpoint: the requested format
    is lower-cased, "binary" returns the MP3 bytes as `audio/mpeg`, "base64"
    returns them base64-encoded in an `audio_base64` field, and anything
    else is answered with HTTP 400.

    The base64 codec is a library call; it is a parameter here, and the
    round trip is stated for any decoder that inverts it. */
module ResponseEncoder {
  import opened Bytes
  import opened Errors

  /** The two answers of the endpoint. */
  datatype Response =
    | Binary(content: seq<byte>, mediaType: string)
    | Json(field: string, value: string)

  const MEDIA_TYPE_MPEG: string := "audio/mpeg"
  const AUDIO_BASE64_FIELD: string := "audio_base64"
  const MODE_BINARY: string := "binary"
  const MODE_BASE64: string := "base64"
  const INVALID_FORMAT_DETAIL: string := "Invalid output format. Choose 'base64' or 'binary'."

  /** `str.lower` on one character, for the ASCII letters. */
  function LowerChar(c: char): char
  {
    if 'A' <= c <= 'Z' then (c as int + 32) as char else c
  }

  /** `str.lower`, for the ASCII letters. */
  function Lower(s: string): (r: string)
    ensures |r| == |s|
    ensures forall i | 0 <= i < |r| :: !('A' <= r[i] <= 'Z')
  {
    if s == "" then "" else [LowerChar(s[0])] + Lower(s[1..])
  }

  /** Two strings that differ at most in the case of their ASCII letters. */
  predicate EqualIgnoringCase(a: string, b: string)
  {
    |a| == |b| && forall i | 0 <= i < |a| :: LowerChar(a[i]) == LowerChar(b[i])
  }

  /** Lines 82 and 96-106 of the `/tts` endpoint, once the MP3 bytes are
      assembled. */
  function SelectOutput(outputFormat: string, audio: seq<byte>, encode: seq<byte> -> string): (r: Result<Response>)
    ensures r.Err? ==> r.error == HttpError(400, INVALID_FORMAT_DETAIL)
    ensures r.Ok? && r.value.Binary? ==> r.value == Binary(audio, MEDIA_TYPE_MPEG)
    ensures r.Ok? && r.value.Json? ==> r.value == Json(AUDIO_BASE64_FIELD, encode(audio))
  {
    var mode := Lower(outputFormat);
    if mode == MODE_BINARY then Ok(Binary(audio, MEDIA_TYPE_MPEG))
    else if mode == MODE_BASE64 then Ok(Json(AUDIO_BASE64_FIELD, encode(audio)))
    else Err(HttpError(400, INVALID_FORMAT_DETAIL))
  }

  /** Lower-casing keeps each position and changes only its case. */
  lemma {:induction false} LowerAt(s: string)
    ensures |Lower(s)| == |s|
    ensures forall i | 0 <= i < |s| :: Lower(s)[i] == LowerChar(s[i])
  {
    if s != "" {
      LowerAt(s[1..]);
      assert forall i | 1 <= i < |s| :: s[1..][i - 1] == s[i];
    }
  }

  /** Lower-casing a string gives a given lower-case word exactly when the
      string spells that word in any mix of cases. */
  lemma LowerMatches(s: string, word: string)
    requires Lower(word) == word
    ensures Lower(s) == word <==> EqualIgnoringCase(s, word)
  {
    LowerAt(s);
    LowerAt(word);
    if EqualIgnoringCase(s, word) {
      assert forall i | 0 <= i < |s| :: Lower(s)[i] == word[i];
    }
  }

  /** Lower-casing twice is lower-casing once. */
  lemma LowerIdempotent(s: string)
    ensures Lower(Lower(s)) == Lower(s)
  {
    LowerAt(s);
    LowerAt(Lower(s));
    assert forall i | 0 <= i < |s| :: Lower(Lower(s))[i] == Lower(s)[i];
  }

  /** The dispatch accepts exactly the spellings of "binary" and "base64" in
      any case, rejects everything else with status 400, and gives equal
      answers for formats that differ only in case. */
  lemma OutputModeSelection(outputFormat: string, audio: seq<byte>, encode: seq<byte> -> string)
    ensures SelectOutput(outputFormat, audio, encode).Ok? <==>
      EqualIgnoringCase(outputFormat, MODE_BINARY) || EqualIgnoringCase(outputFormat, MODE_BASE64)
    ensures SelectOutput(outputFormat, audio, encode).Err? ==>
      SelectOutput(outputFormat, audio, encode).error.HttpError? &&
      SelectOutput(outputFormat, audio, encode).error.status == 400
    ensures SelectOutput(Lower(outputFormat), audio, encode) == SelectOutput(outputFormat, audio, encode)
  {
    ModeWordsAreLower();
    LowerMatches(outputFormat, MODE_BINARY);
    LowerMatches(outputFormat, MODE_BASE64);
    LowerIdempotent(outputFormat);
  }

  /** The two mode names are already lower-case. */
  lemma ModeWordsAreLower()
    ensures Lower(MODE_BINARY) == MODE_BINARY && Lower(MODE_BASE64) == MODE_BASE64
  {
    LowerAt(MODE_BINARY);
    LowerAt(MODE_BASE64);
  }

  /** In binary mode the answer carries the assembled bytes themselves, as
      `audio/mpeg`. */
  lemma BinaryModeKeepsBytes(outputFormat: string, audio: seq<byte>, encode: seq<byte> -> string)
    requires EqualIgnoringCase(outputFormat, MODE_BINARY)
    ensures SelectOutput(outputFormat, audio, encode) == Ok(Binary(audio, MEDIA_TYPE_MPEG))
  {
    ModeWordsAreLower();
    LowerMatches(outputFormat, MODE_BINARY);
  }

  /** In base64 mode, decoding the `audio_base64` field with any inverse of
      the encoder gives back the assembled bytes. */
  lemma Base64ModeRoundTrip(outputFormat: string, audio: seq<byte>,
                            encode: seq<byte> -> string, decode: string -> seq<byte>)
    requires forall b :: decode(encode(b)) == b
    requires EqualIgnoringCase(outputFormat, MODE_BASE64)
    ensures SelectOutput(outputFormat, audio, encode).Ok?
    ensures var answer := SelectOutput(outputFormat, audio, encode).value;
      answer.Json? && answer.field == AUDIO_BASE64_FIELD && decode(answer.value) == audio
  {
    ModeWordsAreLower();
    LowerMatches(outputFormat, MODE_BASE64);
  }

  /** An unknown format such as "xml" gets the 400 answer, not a crash. */
  lemma XmlIsInvalidFormat(audio: seq<byte>, encode: seq<byte> -> string)
    ensures SelectOutput("xml", audio, encode) == Err(HttpError(400, INVALID_FORMAT_DETAIL))
  {
    LowerAt("xml");
  }
}
