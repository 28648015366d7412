/** Decoding tables made from alphabets, and the way of a message through an encoder and a decoder. */
module BaseNRoundTrip {
  import opened Bytes
  import opened Wrappers
  import opened Powers
  import opened BaseN
  import opened BaseNFilters
  import opened BaseNDecoders

  predicate IsAlpha(c: byte) {
    65 <= c <= 90 || 97 <= c <= 122
  }

  function ToUpper(c: byte): byte {
    if 97 <= c <= 122 then c - 32 else c
  }

  function ToLower(c: byte): byte {
    if 65 <= c <= 90 then c + 32 else c
  }

  /** Whether `c` is read as the letter `letter`. */
  predicate ReadAs(c: byte, letter: byte, caseInsensitive: bool) {
    c == letter || (caseInsensitive && IsAlpha(letter) && (c == ToUpper(letter) || c == ToLower(letter)))
  }

  /** A byte is read as a letter if it is that letter or, without regard to case, the same ASCII letter in
      the other case, 32 below or above. */
  lemma ReadAsExactly(c: byte, letter: byte, caseInsensitive: bool)
    ensures ReadAs(c, letter, caseInsensitive) <==>
      || c == letter
      || (caseInsensitive && 65 <= letter <= 90 && c == letter + 32)
      || (caseInsensitive && 97 <= letter <= 122 && c == letter - 32)
  {
  }

  /** The last of the first `n` letters that `c` is read as, or -1. */
  function LastIndex(alphabet: bytes, n: nat, c: byte, caseInsensitive: bool): int
    requires n <= |alphabet|
  {
    if n == 0 then -1
    else if ReadAs(c, alphabet[n - 1], caseInsensitive) then n - 1
    else LastIndex(alphabet, n - 1, c, caseInsensitive)
  }

  /** It is the last one indeed, and -1 if there is none. */
  lemma {:induction false} LastIndexExactly(alphabet: bytes, n: nat, c: byte, caseInsensitive: bool, k: int)
    requires n <= |alphabet|
    ensures LastIndex(alphabet, n, c, caseInsensitive) == k <==>
      && -1 <= k < n && (k >= 0 ==> ReadAs(c, alphabet[k], caseInsensitive))
      && forall j :: k < j < n ==> !ReadAs(c, alphabet[j], caseInsensitive)
  {
    hide ReadAs;
    if n > 0 {
      LastIndexExactly(alphabet, n - 1, c, caseInsensitive, k);
      var last := LastIndex(alphabet, n - 1, c, caseInsensitive);
      LastIndexExactly(alphabet, n - 1, c, caseInsensitive, last);
    }
  }

  method InitializeDecodingLookupArray(lookup: array<int>, alphabet: bytes, base: nat, caseInsensitive: bool)
    requires lookup.Length == 256 && base <= |alphabet|
    modifies lookup
    ensures forall c: byte :: lookup[c] == LastIndex(alphabet, base, c, caseInsensitive)
  {
    for i := 0 to 256
      invariant forall j :: 0 <= j < i ==> lookup[j] == -1
    {
      lookup[i] := -1;
    }
    for i := 0 to base
      invariant forall c: byte :: lookup[c] == LastIndex(alphabet, i, c, caseInsensitive)
    {
      if caseInsensitive && IsAlpha(alphabet[i]) {
        lookup[ToUpper(alphabet[i])] := i;
        lookup[ToLower(alphabet[i])] := i;
      } else {
        lookup[alphabet[i]] := i;
      }
    }
  }

  /** No letter is read as a later one. */
  ghost predicate Distinct(alphabet: bytes, caseInsensitive: bool) {
    forall i, j :: 0 <= i < j < |alphabet| ==> !ReadAs(alphabet[i], alphabet[j], caseInsensitive)
  }

  lemma DistinctMeans(alphabet: bytes, caseInsensitive: bool)
    ensures Distinct(alphabet, false) <==> forall i, j :: 0 <= i < j < |alphabet| ==> alphabet[i] != alphabet[j]
    ensures Distinct(alphabet, caseInsensitive) <==>
      forall i, j :: 0 <= i < j < |alphabet| ==> !ReadAs(alphabet[i], alphabet[j], caseInsensitive)
  {
  }

  lemma {:induction false} FindsLetter(alphabet: bytes, n: nat, d: nat, caseInsensitive: bool)
    requires Distinct(alphabet, caseInsensitive) && d < n <= |alphabet|
    ensures LastIndex(alphabet, n, alphabet[d], caseInsensitive) == d
  {
    if d < n - 1 {
      FindsLetter(alphabet, n - 1, d, caseInsensitive);
    }
  }

  lemma {:induction false} IndexInRange(alphabet: bytes, n: nat, c: byte, caseInsensitive: bool)
    requires n <= |alphabet|
    ensures -1 <= LastIndex(alphabet, n, c, caseInsensitive) < n
  {
    if n > 0 {
      IndexInRange(alphabet, n - 1, c, caseInsensitive);
    }
  }

  /** Without regard to case, a letter is read alike in either case. */
  lemma {:induction false} CaseBlind(alphabet: bytes, n: nat, c: byte)
    requires n <= |alphabet|
    ensures LastIndex(alphabet, n, ToUpper(c), true) == LastIndex(alphabet, n, ToLower(c), true)
    ensures 65 <= c <= 90 ==> LastIndex(alphabet, n, c, true) == LastIndex(alphabet, n, c + 32, true)
  {
    if n > 0 {
      CaseBlind(alphabet, n - 1, c);
    }
  }

  /** The table made from an alphabet of distinct letters inverts it. */
  lemma TableInverts(lookup: seq<int>, alphabet: bytes, w: nat, caseInsensitive: bool, padding: Option<byte>)
    requires w <= 7 && |alphabet| == Pow2(w) && Distinct(alphabet, caseInsensitive)
    requires |lookup| == 256 && forall c: byte :: lookup[c] == LastIndex(alphabet, |alphabet|, c, caseInsensitive)
    requires padding.Some? ==> forall i :: 0 <= i < |alphabet| ==> !ReadAs(padding.value, alphabet[i], caseInsensitive)
    ensures Inverts(lookup, alphabet, w, padding) && forall c: byte :: -1 <= lookup[c] < Pow2(w)
  {
    hide Pow2, ReadAs, LastIndex;
    forall c: byte
      ensures -1 <= lookup[c] < Pow2(w)
    {
      IndexInRange(alphabet, |alphabet|, c, caseInsensitive);
    }
    forall d | 0 <= d < |alphabet|
      ensures lookup[alphabet[d]] == d
    {
      FindsLetter(alphabet, |alphabet|, d, caseInsensitive);
    }
    if padding.Some? {
      NotFound(alphabet, |alphabet|, padding.value, caseInsensitive);
    }
  }

  lemma {:induction false} NotFound(alphabet: bytes, n: nat, c: byte, caseInsensitive: bool)
    requires n <= |alphabet| && forall i :: 0 <= i < n ==> !ReadAs(c, alphabet[i], caseInsensitive)
    ensures LastIndex(alphabet, n, c, caseInsensitive) == -1
  {
    if n > 0 {
      NotFound(alphabet, n - 1, c, caseInsensitive);
    }
  }

  method EncodeAll(encoder: Encoder, chunks: seq<bytes>)
    requires encoder.Valid() && encoder.message == []
    modifies encoder, encoder.outBuf
    ensures encoder.Valid() && 1 <= encoder.bitsPerChar <= 7
    ensures encoder.output == old(encoder.startOutput)
      + Encoded(encoder.alphabet, encoder.bitsPerChar, encoder.padding, Flatten(chunks))
  {
    hide Encoder.Valid, Encoded;
    for i := 0 to |chunks|
      invariant encoder.Valid() && encoder.message == Flatten(chunks[..i])
        && encoder.startOutput == old(encoder.startOutput)
    {
      assert chunks[..i + 1][..i] == chunks[..i];
      encoder.Put2(chunks[i], false);
    }
    assert chunks[..|chunks|] == chunks && Flatten(chunks) + [] == Flatten(chunks);
    encoder.WidthInRange();
    encoder.Put2([], true);
  }

  method DecodeAll(decoder: Decoder, chunks: seq<bytes>)
    requires decoder.Valid() && decoder.message == []
    modifies decoder, decoder.outBuf
    ensures decoder.Valid() && |decoder.lookup| == 256
    ensures decoder.output == old(decoder.startOutput) + Unpacked(decoder.lookup, decoder.bitsPerChar, Flatten(chunks))
  {
    hide Decoder.Valid, Unpacked;
    for i := 0 to |chunks|
      invariant decoder.Valid() && decoder.message == Flatten(chunks[..i])
        && decoder.startOutput == old(decoder.startOutput)
    {
      assert chunks[..i + 1][..i] == chunks[..i];
      decoder.Put2(chunks[i], false);
    }
    assert chunks[..|chunks|] == chunks && Flatten(chunks) + [] == Flatten(chunks);
    decoder.LookupSize();
    decoder.Put2([], true);
  }

  /** End to end: a message encoded in any writes and decoded in any other writes arrives as it was. */
  method Transmit(encoder: Encoder, decoder: Decoder, chunks: seq<bytes>, recut: bytes -> seq<bytes>)
    requires encoder.Valid() && decoder.Valid() && encoder.message == decoder.message == []
    requires encoder.startOutput == decoder.startOutput == [] && encoder.outBuf != decoder.outBuf
    requires encoder.bitsPerChar == decoder.bitsPerChar
    requires Inverts(decoder.lookup, encoder.alphabet, encoder.bitsPerChar, encoder.padding)
    requires forall text :: Flatten(recut(text)) == text
    modifies encoder, encoder.outBuf, decoder, decoder.outBuf
    ensures decoder.output == Flatten(chunks)
  {
    hide Inverts, Encoded, Decoded, Unpacked, Flatten;
    ghost var lookup, alphabet, w, padding := decoder.lookup, encoder.alphabet, encoder.bitsPerChar, encoder.padding;
    encoder.WidthInRange();
    EncodeAll(encoder, chunks);
    ghost var message := Flatten(chunks);
    ghost var text := Encoded(alphabet, w, padding, message);
    assert encoder.output == text;
    var pieces := recut(encoder.output);
    DecodeAll(decoder, pieces);
    assert Flatten(pieces) == text && decoder.output == Unpacked(lookup, w, text);
    DecodedEncoded(lookup, alphabet, w, padding, message);
    UnpackedFitting(lookup, alphabet, w, padding, message);
  }

  /** Encoded letters stand for digits that fit the width, so the decoder decodes them. */
  lemma UnpackedFitting(lookup: seq<int>, alphabet: bytes, w: nat, padding: Option<byte>, message: bytes)
    requires 1 <= w <= 7 && Inverts(lookup, alphabet, w, padding)
    ensures |lookup| == 256
    ensures var text := Encoded(alphabet, w, padding, message);
      Unpacked(lookup, w, text) == Decoded(lookup, w, text)
  {
    hide Digits, DigitsOf, Encoded, Overlaid, Pow2, Octets;
    DecodedEncoded(lookup, alphabet, w, padding, message);
    DigitCount(message, w);
    FittingDigits(DigitsOf(message, w), w);
  }
}
