/** Encoders and decoders for digits of one to seven bits: repacking a stream of bytes as a stream
    of digits and back, in blocks, over any writes. */
module BaseN {
  import opened Bytes
  import opened Wrappers
  import opened Divisibility
  import opened Powers
  import opened BitWords
  import opened BitStrings

  /** The number of digits in a block: the least that makes whole bytes. */
  function OutputBlockSize(w: nat): nat {
    if w % 2 == 1 then 8 else if w == 4 then 2 else 4
  }

  lemma OutputBlockIsLeast(w: nat)
    requires 1 <= w <= 7
    ensures w * OutputBlockSize(w) % 8 == 0
    ensures forall k :: 0 < k < OutputBlockSize(w) ==> w * k % 8 != 0
  {
    forall k | 0 < k < OutputBlockSize(w)
      ensures w * k % 8 != 0
    {
      match w
      case 1 => case 2 => case 3 => case 4 => case 5 => case 6 => case 7 =>
    }
  }

  /** The same for the decoder: the least number of bytes that makes whole digits. */
  function DecodedBlockSize(w: nat): nat {
    if w % 2 == 1 then w else if w == 6 then 3 else 1
  }

  lemma DecodedBlockIsLeast(w: nat)
    requires 1 <= w <= 7
    ensures 8 * DecodedBlockSize(w) % w == 0 && DecodedBlockSize(w) > 0
    ensures forall k :: 0 < k < DecodedBlockSize(w) ==> 8 * k % w != 0
  {
    if w == 3 {
      assert 8 * 1 % 3 != 0 && 8 * 2 % 3 != 0;
    } else if w == 5 {
      assert 8 * 1 % 5 != 0 && 8 * 2 % 5 != 0 && 8 * 3 % 5 != 0 && 8 * 4 % 5 != 0;
    } else if w == 6 {
      assert 8 * 1 % 6 != 0 && 8 * 2 % 6 != 0;
    } else if w == 7 {
      assert 8 * 1 % 7 != 0 && 8 * 2 % 7 != 0 && 8 * 3 % 7 != 0 && 8 * 4 % 7 != 0 && 8 * 5 % 7 != 0 && 8 * 6 % 7 != 0;
    }
  }

  /** The searches for the two block sizes; None stands for InvalidArgument. */
  method FindOutputBlockSize(w: int) returns (size: Option<nat>)
    ensures size == if 1 <= w <= 7 then Some(OutputBlockSize(w)) else None
  {
    if w <= 0 || w >= 8 {
      return None;
    }
    var i := 8;
    while i % w != 0
      invariant i % 8 == 0 && 8 <= i <= 56
      invariant i > 8 ==> w == 3 || w == 5 || w == 6 || w == 7
      invariant w == 3 || w == 6 ==> i <= 24
      invariant w == 5 ==> i <= 40
      decreases 56 - i
    {
      i := i + 8;
    }
    size := Some(i / w);
  }

  method FindDecodedBlockSize(w: int) returns (size: Option<nat>)
    ensures size == if 1 <= w <= 7 then Some(DecodedBlockSize(w)) else None
  {
    if w <= 0 || w >= 8 {
      return None;
    }
    var i := w;
    ghost var k := 1;
    while i % 8 != 0
      invariant i == k * w && 1 <= k <= 8
      invariant w == 2 || w == 6 ==> k <= 4
      invariant w == 4 ==> k <= 2
      decreases 8 - k
    {
      i := i + w;
      k := k + 1;
    }
    size := Some(i / 8);
  }

  /** The letters for some digits. */
  function Letters(alphabet: bytes, digits: seq<nat>): (r: bytes)
    ensures |r| == |digits|
    ensures forall i :: 0 <= i < |digits| ==> r[i] == if digits[i] < |alphabet| then alphabet[digits[i]] else 0
  {
    seq(|digits|, i requires 0 <= i < |digits| => if digits[i] < |alphabet| then alphabet[digits[i]] else 0)
  }

  lemma LettersConcat(alphabet: bytes, x: seq<nat>, y: seq<nat>)
    ensures Letters(alphabet, x + y) == Letters(alphabet, x) + Letters(alphabet, y)
  {
  }

  /** How many zero bits complete the last digit, and how many padding letters the last block. */
  function Missing(n: nat, size: nat): (m: nat)
    requires size > 0
    ensures m < size
  {
    if n % size == 0 then 0 else size - n % size
  }

  /** The digits of a message. */
  function DigitsOf(message: bytes, w: nat): seq<nat>
    requires w > 0
  {
    var b := Joined(message, 8);
    Groups(b + NoBits(Missing(|b|, w)), w)
  }

  /** The encoding of a whole message. */
  function Encoded(alphabet: bytes, w: nat, padding: Option<byte>, message: bytes): bytes
    requires 1 <= w <= 7
  {
    var letters := Letters(alphabet, DigitsOf(message, w));
    if padding.None? then letters else letters + Repeated(padding.value, Missing(|letters|, OutputBlockSize(w)))
  }

  /** The digits among some letters: what has no digit is skipped. */
  function Digits(lookup: seq<int>, letters: bytes): seq<nat>
    requires |lookup| == 256
  {
    if letters == [] then [] else
      var last := lookup[letters[|letters| - 1]];
      Digits(lookup, letters[..|letters| - 1]) + if 0 <= last < 256 then [last] else []
  }

  /** One more letter. */
  lemma NextLetter(lookup: seq<int>, letters: bytes, c: byte)
    requires |lookup| == 256
    ensures Digits(lookup, letters + [c]) == Digits(lookup, letters) + if 0 <= lookup[c] < 256 then [lookup[c]] else []
  {
    assert (letters + [c])[..|letters|] == letters;
  }

  function Octets(b: bits): bytes {
    GroupsBound(b);
    Groups(b, 8)
  }

  lemma {:induction false} GroupsBound(b: bits)
    ensures forall i :: 0 <= i < |Groups(b, 8)| ==> Groups(b, 8)[i] < 256
    decreases |b|
  {
    if |b| >= 8 {
      BitsOfValue(b[..8]);
      SmallPowers();
      GroupsBound(b[8..]);
    }
  }

  /** The bytes of a bit string, an incomplete one dropped. */
  lemma OctetBits(b: bits, k: nat, i: nat)
    requires k < |b| / 8 && i < 8
    ensures |Octets(b)| == |b| / 8
    ensures GetBit(Octets(b)[k], 7 - i) <==> b[8 * k + i]
  {
    hide Joined, Groups, GetBit, Octets;
    var n := |b| - |b| % 8;
    WholeOctets(b);
    JoinedLength(Octets(b), 8);
    BitOfJoined(Octets(b), 8, k, i);
  }

  lemma WholeOctets(b: bits)
    ensures Joined(Octets(b), 8) == b[..|b| - |b| % 8]
  {
    hide Joined, Groups;
    var n := |b| - |b| % 8;
    assert b == b[..n] + b[n..];
    GroupsConcat(b[..n], b[n..], 8);
    TooFew(b[n..]);
    JoinedGroups(b[..n], 8);
    assert Groups(b[..n], 8) + [] == Groups(b[..n], 8);
  }

  lemma TooFew(b: bits)
    requires |b| < 8
    ensures Groups(b, 8) == []
  {
  }

  function Decoded(lookup: seq<int>, w: nat, letters: bytes): bytes
    requires |lookup| == 256
  {
    Octets(Joined(Digits(lookup, letters), w))
  }

  /** A lookup table that inverts an alphabet, and has no digit for the padding letter. */
  ghost predicate Inverts(lookup: seq<int>, alphabet: bytes, w: nat, padding: Option<byte>) {
    && |lookup| == 256 && |alphabet| == Pow2(w)
    && (forall d :: 0 <= d < |alphabet| ==> lookup[alphabet[d]] == d)
    && (padding.Some? ==> lookup[padding.value] < 0 || lookup[padding.value] >= 256)
  }

  lemma {:induction false} DigitsConcat(lookup: seq<int>, x: bytes, y: bytes)
    requires |lookup| == 256
    ensures Digits(lookup, x + y) == Digits(lookup, x) + Digits(lookup, y)
  {
    if y == [] {
      assert x + y == x && Digits(lookup, x) + [] == Digits(lookup, x);
    } else {
      DigitsConcat(lookup, x, y[..|y| - 1]);
      assert (x + y)[..|x + y| - 1] == x + y[..|y| - 1];
    }
  }

  lemma {:induction false} DigitsOfLetters(lookup: seq<int>, alphabet: bytes, w: nat, padding: Option<byte>,
      digits: seq<nat>)
    requires Inverts(lookup, alphabet, w, padding) && w <= 8
    requires forall i :: 0 <= i < |digits| ==> digits[i] < Pow2(w)
    ensures Digits(lookup, Letters(alphabet, digits)) == digits
  {
    hide Pow2, Digits;
    if digits == [] {
      NoLetters(lookup);
    } else {
      var front, last := digits[..|digits| - 1], digits[|digits| - 1];
      DigitsOfLetters(lookup, alphabet, w, padding, front);
      Pow2Monotone(w, 8);
      SmallPowers();
      NextLetter(lookup, Letters(alphabet, front), alphabet[last]);
      assert Letters(alphabet, digits) == Letters(alphabet, front) + [alphabet[last]];
      assert digits == front + [last];
    }
  }

  lemma NoLetters(lookup: seq<int>)
    requires |lookup| == 256
    ensures Digits(lookup, []) == []
  {
  }

  lemma {:induction false} DigitsOfPadding(lookup: seq<int>, b: byte, n: nat)
    requires |lookup| == 256 && (lookup[b] < 0 || lookup[b] >= 256)
    ensures Digits(lookup, Repeated(b, n)) == []
  {
    if n > 0 {
      DigitsOfPadding(lookup, b, n - 1);
      assert Repeated(b, n)[..n - 1] == Repeated(b, n - 1);
    }
  }

  /** The number of digits: eight bits a byte, and less than one digit more. */
  lemma DigitCount(message: bytes, w: nat)
    requires w > 0
    ensures 8 * |message| <= w * |DigitsOf(message, w)| < 8 * |message| + w
    ensures Joined(DigitsOf(message, w), w) == Joined(message, 8) + NoBits(Missing(|Joined(message, 8)|, w))
    ensures forall i :: 0 <= i < |DigitsOf(message, w)| ==> DigitsOf(message, w)[i] < Pow2(w)
  {
    hide Joined, Groups, Pow2;
    var b := Joined(message, 8);
    var z := Missing(|b|, w);
    Completed(|b|, w);
    JoinedGroups(b + NoBits(z), w);
    JoinedLength(message, 8);
    JoinedLength(DigitsOf(message, w), w);
  }

  /** Bit `i` of digit `k` is bit `w * k + i` of the message, or zero behind its end. */
  lemma DigitBits(message: bytes, w: nat, k: nat, i: nat)
    requires w > 0 && k < |DigitsOf(message, w)| && i < w
    ensures var p := w * k + i;
      && p >= 0
      && (GetBit(DigitsOf(message, w)[k], w - 1 - i)
          <==> p / 8 < |message| && GetBit(message[p / 8], 7 - p % 8))
  {
    hide Joined, DigitsOf, GetBit, Missing, NoBits;
    var p, b := w * k + i, Joined(message, 8);
    DigitCount(message, w);
    BitOfJoined(DigitsOf(message, w), w, k, i);
    JoinedLength(message, 8);
    if p / 8 < |message| {
      BitOfJoined(message, 8, p / 8, p % 8);
      assert p == 8 * (p / 8) + p % 8;
    } else {
      NoneSet(Missing(|b|, w));
    }
  }

  lemma NoneSet(n: nat)
    ensures |NoBits(n)| == n && forall i :: 0 <= i < n ==> !NoBits(n)[i]
  {
  }

  /** The encoding letter by letter: the letters of the digits, and then, if there is a padding letter, as
      few of it as make whole blocks. */
  lemma EncodedLetters(alphabet: bytes, w: nat, padding: Option<byte>, message: bytes)
    requires 1 <= w <= 7 && |alphabet| == Pow2(w)
    ensures var digits, text := DigitsOf(message, w), Encoded(alphabet, w, padding, message);
      && |digits| <= |text|
      && (forall k :: 0 <= k < |digits| ==> digits[k] < |alphabet| && text[k] == alphabet[digits[k]])
      && (padding.None? ==> |text| == |digits|)
      && (padding.Some? ==>
            && |text| < |digits| + OutputBlockSize(w) && |text| % OutputBlockSize(w) == 0
            && forall k :: |digits| <= k < |text| ==> text[k] == padding.value)
  {
    hide DigitsOf, Missing, Pow2, OutputBlockSize, Letters, Repeated;
    var digits := DigitsOf(message, w);
    var letters, n := Letters(alphabet, digits), |digits|;
    DigitCount(message, w);
    SizePositive(w);
    Completed(n, OutputBlockSize(w));
    if padding.Some? {
      WithPadding(letters, Repeated(padding.value, Missing(n, OutputBlockSize(w))), padding.value);
    }
  }

  lemma WithPadding(letters: bytes, pad: bytes, b: byte)
    requires forall i :: 0 <= i < |pad| ==> pad[i] == b
    ensures |letters + pad| == |letters| + |pad| && (letters + pad)[..|letters|] == letters
    ensures forall k :: |letters| <= k < |letters + pad| ==> (letters + pad)[k] == b
  {
  }

  lemma SizePositive(w: nat)
    ensures OutputBlockSize(w) > 0
  {
  }

  lemma InvertsMeans(lookup: seq<int>, alphabet: bytes, w: nat, padding: Option<byte>)
    ensures Inverts(lookup, alphabet, w, padding) <==>
      && |lookup| == 256 && |alphabet| == Pow2(w) && (forall d :: 0 <= d < |alphabet| ==> lookup[alphabet[d]] == d)
      && (padding.Some? ==> !(0 <= lookup[padding.value] < 256))
  {
  }

  lemma Completed(n: nat, size: nat)
    requires size > 0
    ensures (n + Missing(n, size)) % size == 0
  {
    var q := n / size;
    assert n == size * q + n % size;
    if n % size == 0 {
    } else {
      Distribute(size, q, 1);
      MultipleHasNoRest(size, q + 1);
    }
  }

  /** Decoding what was encoded gives the message back, with padding letters or without. */
  lemma DecodedEncoded(lookup: seq<int>, alphabet: bytes, w: nat, padding: Option<byte>, message: bytes)
    requires 1 <= w <= 7 && Inverts(lookup, alphabet, w, padding)
    ensures Digits(lookup, Encoded(alphabet, w, padding, message)) == DigitsOf(message, w)
    ensures Decoded(lookup, w, Encoded(alphabet, w, padding, message)) == message
  {
    hide Joined, Groups, Pow2, Digits, Letters, DigitsOf, Repeated, Missing, NoBits;
    var digits := DigitsOf(message, w);
    var letters := Letters(alphabet, digits);
    DigitCount(message, w);
    DigitsOfLetters(lookup, alphabet, w, padding, digits);
    if padding.Some? {
      var n := Missing(|letters|, OutputBlockSize(w));
      DigitsConcat(lookup, letters, Repeated(padding.value, n));
      DigitsOfPadding(lookup, padding.value, n);
      assert digits + [] == digits;
    }
    SmallPowers();
    GroupsOfJoined(message, 8, NoBits(Missing(|Joined(message, 8)|, w)));
  }
}
