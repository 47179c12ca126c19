/** `concatenate_base64_mp3`: joins the MP3 fragments returned for the text
    chunks into one file. The first fragment is kept whole; every later
    fragment that opens with an ID3v2 tag loses that tag (its 10-byte header
    and the size the header declares) before it is appended.

    The fragments are taken here after base64 decoding. The tag size is read
    as a plain big-endian integer over header bytes 6..9, not as the
    synchsafe integer (7 bits per byte) that section 3.1 of the ID3v2.4.0
    structure document prescribes; the model keeps that reading. */
module Mp3Stitcher {
  import opened Seqs
  import opened Bytes

  /** The three bytes "ID3" that open an ID3v2 tag. */
  const ID3_SIGNATURE: seq<byte> := [0x49, 0x44, 0x33]

  /** Length of the ID3v2 tag header that precedes the tag body. */
  const ID3_HEADER_LENGTH: nat := 10

  /** `decoded_data[:10][:3] == b'ID3'` */
  predicate HasId3Tag(fragment: seq<byte>)
    ensures HasId3Tag(fragment) <==>
      |fragment| >= 3 && fragment[0] == 0x49 && fragment[1] == 0x44 && fragment[2] == 0x33
  {
    |fragment| >= 3 && fragment[..3] == ID3_SIGNATURE
  }

  /** `int.from_bytes(header[6:10], byteorder='big')`, where the slice keeps
      only the bytes that exist: a fragment of 6 bytes or fewer declares 0. */
  function DeclaredTagSize(fragment: seq<byte>): (r: nat)
    ensures r < TWO_POW_32
  {
    var sizeField := Slice(fragment, 6, 10);
    assert Pow256(|sizeField|) <= TWO_POW_32 by {
      assert Pow256(4) == 256 * Pow256(3) == 0x1_0000 * Pow256(2) == 0x100_0000 * Pow256(1) == TWO_POW_32;
    }
    BigEndian(sizeField)
  }

  /** What a later fragment contributes: `decoded_data[10 + tag_size:]`
      when it has a tag, the fragment itself otherwise. */
  function StripTag(fragment: seq<byte>): (r: seq<byte>)
    ensures |r| <= |fragment|
    ensures HasId3Tag(fragment) ==> |fragment| - |r| == Min(|fragment|, ID3_HEADER_LENGTH + DeclaredTagSize(fragment))
    ensures !HasId3Tag(fragment) ==> r == fragment
  {
    if HasId3Tag(fragment) then Drop(fragment, ID3_HEADER_LENGTH + DeclaredTagSize(fragment))
    else fragment
  }

  /** The contributions of `fragments`, in order. */
  function JoinStripped(fragments: seq<seq<byte>>): seq<byte>
  {
    if fragments == [] then []
    else JoinStripped(fragments[..|fragments| - 1]) + StripTag(fragments[|fragments| - 1])
  }

  /** The file `concatenate_base64_mp3` returns for the decoded fragments. */
  function Stitched(fragments: seq<seq<byte>>): (r: seq<byte>)
    ensures fragments != [] ==> fragments[0] <= r
  {
    if fragments == [] then [] else fragments[0] + JoinStripped(fragments[1..])
  }

  /** The loop of `concatenate_base64_mp3`, over decoded fragments. Like the
      source it inspects the 10-byte `header` slice rather than the whole
      fragment. */
  method ConcatenateMp3(fragments: seq<seq<byte>>) returns (audio: seq<byte>)
    ensures audio == Stitched(fragments)
  {
    audio := [];
    for i := 0 to |fragments|
      invariant audio == Stitched(fragments[..i])
    {
      var data := fragments[i];
      assert fragments[..i + 1] == fragments[..i] + [data];
      if i == 0 {
        audio := audio + data;
      } else {
        var header := Take(data, ID3_HEADER_LENGTH);
        HeaderDecidesTag(data);
        if |header| >= 3 && header[..3] == ID3_SIGNATURE {
          var tagSize := BigEndian(Slice(header, 6, 10));
          data := Drop(data, ID3_HEADER_LENGTH + tagSize);
        }
        assert data == StripTag(fragments[i]);
        StitchAppend(fragments[..i], fragments[i]);
        audio := audio + data;
      }
    }
    assert fragments[..|fragments|] == fragments;
  }

  /** The first 10 bytes alone decide whether a fragment has a tag and what
      size it declares. */
  lemma HeaderDecidesTag(fragment: seq<byte>)
    ensures var header := Take(fragment, ID3_HEADER_LENGTH);
      && (HasId3Tag(fragment) <==> |header| >= 3 && header[..3] == ID3_SIGNATURE)
      && Slice(header, 6, 10) == Slice(fragment, 6, 10)
  {
    var header := Take(fragment, ID3_HEADER_LENGTH);
    if |header| >= 3 {
      assert header[..3] == fragment[..3];
    }
  }

  /** A later fragment loses exactly min(length, 10 + declared size) leading
      bytes when it opens with "ID3", and none otherwise; what is left is a
      suffix of the fragment. */
  lemma StripTagDropsTag(fragment: seq<byte>)
    ensures var dropped := |fragment| - |StripTag(fragment)|;
      && fragment == fragment[..dropped] + StripTag(fragment)
      && dropped == (if HasId3Tag(fragment) then Min(|fragment|, 10 + DeclaredTagSize(fragment)) else 0)
  {
  }

  /** With a full header the declared size is bytes 6..9 read big-endian,
      each worth 8 bits, not 7 as in a synchsafe integer. */
  lemma DeclaredSizeOfFullHeader(fragment: seq<byte>)
    requires |fragment| >= 10
    ensures DeclaredTagSize(fragment) ==
      0x100_0000 * (fragment[6] as int) + 0x1_0000 * (fragment[7] as int) + 0x100 * (fragment[8] as int) + fragment[9] as int
  {
    BigEndianFour(fragment[6..10]);
  }

  /** A fragment cut off inside the size field declares a size from the
      bytes that are there: none for 6 bytes or fewer, two for 8. */
  lemma DeclaredSizeOfShortHeader(fragment: seq<byte>)
    ensures |fragment| <= 6 ==> DeclaredTagSize(fragment) == 0
    ensures |fragment| == 8 ==> DeclaredTagSize(fragment) == 0x100 * (fragment[6] as int) + fragment[7] as int
  {
    if |fragment| == 8 {
      BigEndianTwo(fragment[6..8]);
    }
  }

  /** Section 3.1 of ID3v2.4.0: a tag size of 28 bits, 7 in each byte. */
  function SynchsafeSize(size: seq<byte>): nat
    requires |size| == 4
  {
    0x20_0000 * (size[0] as int) + 0x4000 * (size[1] as int) + 0x80 * (size[2] as int) + size[3] as int
  }

  /** For every well-formed synchsafe size field (no byte above 0x7F) the
      plain big-endian reading is at least the synchsafe size, and equal to it
      only when the three high bytes are zero: a tag of 128 bytes or more is
      read as larger than it is, so audio after it is dropped too. */
  lemma PlainSizeOverstates(size: seq<byte>)
    requires |size| == 4
    requires forall i | 0 <= i < 4 :: size[i] < 0x80
    ensures BigEndian(size) >= SynchsafeSize(size)
    ensures BigEndian(size) == SynchsafeSize(size) <==> size[0] == 0 && size[1] == 0 && size[2] == 0
  {
    BigEndianFour(size);
  }

  /** A tag declaring 128 body bytes (synchsafe [0, 0, 1, 0]) makes a full
      fragment lose 266 bytes, where the ID3v2.4.0 reading would drop 138. */
  lemma TagOf128Bytes(fragment: seq<byte>)
    requires |fragment| >= 300 && HasId3Tag(fragment)
    requires fragment[6..10] == [0, 0, 1, 0]
    ensures SynchsafeSize(fragment[6..10]) == 128
    ensures StripTag(fragment) == fragment[266..]
  {
    DeclaredSizeOfFullHeader(fragment);
  }

  /** Output starts with the first fragment, unchanged. */
  lemma FirstFragmentKept(fragments: seq<seq<byte>>)
    requires fragments != []
    ensures Stitched(fragments)[..|fragments[0]|] == fragments[0]
    ensures |fragments| == 1 ==> Stitched(fragments) == fragments[0]
  {
    if |fragments| == 1 {
      assert fragments[1..] == [];
    }
  }

  /** Stitching one more fragment appends its contribution. */
  lemma StitchAppend(fragments: seq<seq<byte>>, fragment: seq<byte>)
    requires fragments != []
    ensures Stitched(fragments + [fragment]) == Stitched(fragments) + StripTag(fragment)
  {
    assert (fragments + [fragment])[1..] == fragments[1..] + [fragment];
    assert (fragments[1..] + [fragment])[..|fragments| - 1] == fragments[1..];
  }

  /** When no later fragment opens with "ID3" the output is the plain
      concatenation, as long as all the fragments together. */
  lemma {:induction false} UntaggedIsPlainConcatenation(fragments: seq<seq<byte>>)
    requires forall i | 1 <= i < |fragments| :: !HasId3Tag(fragments[i])
    ensures Stitched(fragments) == Flatten(fragments)
    ensures |Stitched(fragments)| == TotalLength(fragments)
  {
    if |fragments| > 1 {
      var init := fragments[..|fragments| - 1];
      var last := fragments[|fragments| - 1];
      assert fragments == init + [last];
      UntaggedIsPlainConcatenation(init);
      StitchAppend(init, last);
      FlattenAppend(init, last);
    } else if |fragments| == 1 {
      assert Flatten(fragments) == fragments[0] + Flatten(fragments[1..]);
      assert fragments[1..] == [];
    }
    FlattenLength(fragments);
  }

  /** Fragments of 1000 and 800 bytes, the second without a tag, stitch to
      1800 bytes. */
  lemma ThousandAndEightHundred(first: seq<byte>, second: seq<byte>)
    requires |first| == 1000 && |second| == 800 && !HasId3Tag(second)
    ensures |Stitched([first, second])| == 1800
  {
    UntaggedIsPlainConcatenation([first, second]);
    assert [first, second][1..] == [second];
    assert [second][1..] == [];
    assert TotalLength([second]) == 800 + TotalLength([second][1..]);
  }

  /** A second fragment whose tag declares size S, all within the fragment,
      loses exactly its first 10 + S bytes. */
  lemma SecondFragmentTagged(first: seq<byte>, second: seq<byte>)
    requires HasId3Tag(second) && |second| >= 10
    requires 10 + DeclaredTagSize(second) <= |second|
    ensures Stitched([first, second]) == first + second[10 + DeclaredTagSize(second)..]
  {
    StitchAppend([first], second);
    FirstFragmentKept([first]);
  }
}
