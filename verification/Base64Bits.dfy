/**
 * What an encoding is, bit by bit (section 4 of RFC 4648): the bits of the bytes, first byte and highest
 * bit first, cut into sixes and filled up with zeros.
 */
module Base64Bits {
  import opened Common
  import opened Bits
  import opened Base64Url

  /** Bit `i` of the byte string, highest bit of the first byte first; zero behind its end. */
  predicate StreamBit(bytes: ByteString, i: nat) {
    i / 8 < |bytes| && Bit(bytes[i / 8], 7 - i % 8)
  }

  lemma {:induction false} BitOfShifted(a: nat, k: nat, i: nat)
    ensures Bit(Shr(a, k), i) <==> Bit(a, i + k)
    decreases k
  {
    if k == 0 {
    } else {
      BitOfShifted(a / 2, k - 1, i);
    }
  }

  lemma {:induction false} BitOfRemainder(a: nat, width: nat, i: nat)
    requires i < width
    ensures Bit(a % Pow2(width), i) <==> Bit(a, i)
    decreases width
  {
    var n := Pow2(width - 1);
    RemainderByHalves(a, n);
    HalfOfSum(a / 2 % n, a % 2);
    if i == 0 {
    } else {
      BitOfRemainder(a / 2, width - 1, i - 1);
    }
  }

  lemma HalfOfSum(half: nat, low: nat)
    requires low < 2
    ensures (2 * half + low) / 2 == half && (2 * half + low) % 2 == low
  {
  }

  /** The bits of a group of up to three bytes, from the highest of 24 down. */
  lemma GroupBit(chunk: ByteString, i: nat)
    requires 1 <= |chunk| <= 3 && i < 24
    ensures Bit(Group(chunk), 23 - i) <==> StreamBit(chunk, i)
  {
    Powers();
    var b0: nat, b1: nat, b2: nat := chunk[0], if |chunk| > 1 then chunk[1] else 0, if |chunk| > 2 then chunk[2] else 0;
    var n := Group(chunk);
    GroupSplits(b0, b1, b2);
    var m := 7 - i % 8;
    if i < 8 {
      ShrDivides(n, 16);
      BitOfShifted(n, 16, m);
      BitOfRemainder(n / 0x1_0000, 8, m);
    } else if i < 16 {
      ShrDivides(n, 8);
      BitOfShifted(n, 8, m);
      BitOfRemainder(n / 0x100, 8, m);
      ZeroBit(m);
    } else {
      BitOfRemainder(n, 8, m);
      ZeroBit(m);
    }
  }

  lemma {:induction false} ZeroBit(i: nat)
    ensures !Bit(0, i)
  {
    if i == 0 {
    } else {
      ZeroBit(i - 1);
    }
  }

  /** The character stands for a value whose bit `5 - t` is `bit`. */
  predicate Carries(c: char, t: nat, bit: bool)
    requires t < 6
  {
    var v := ValueOf(c);
    v.Some? && (Bit(v.value, 5 - t) <==> bit)
  }

  /** Sextet `j` of a group, read off at its shift. */
  lemma SextetBit(n: nat, j: nat, t: nat)
    requires j < 4 && t < 6
    ensures |SextetsOf(n, 4)| == 4 && (Bit(SextetsOf(n, 4)[j], 5 - t) <==> Bit(n, 23 - (6 * j + t)))
  {
    Powers();
    ShrDivides(n, 18);
    ShrDivides(n, 12);
    ShrDivides(n, 6);
    var shift := 18 - 6 * j;
    assert SextetsOf(n, 4)[j] == Shr(n, shift) % Pow2(6);
    BitOfRemainder(Shr(n, shift), 6, 5 - t);
    BitOfShifted(n, shift, 5 - t);
  }

  /** Character `j` of an encoded group carries bits 6j to 6j + 5. */
  lemma ChunkBit(chunk: ByteString, j: nat, t: nat)
    requires 1 <= |chunk| <= 3 && j <= |chunk| && t < 6
    ensures |EncodeChunk(chunk)| == |chunk| + 1
    ensures Carries(EncodeChunk(chunk)[j], t, StreamBit(chunk, 6 * j + t))
  {
    EncodeChunkSextets(chunk);
    var n := Group(chunk);
    var v := SextetsOf(n, |chunk| + 1)[j];
    assert v == SextetsOf(n, 4)[j];
    ValueOfChar(v);
    SextetBit(n, j, t);
    GroupBit(chunk, 6 * j + t);
  }

  lemma StreamBitOfParts(bytes: ByteString, i: nat)
    ensures i < 24 ==> (StreamBit(bytes, i) <==> StreamBit(Take(bytes, 3), i))
    ensures i >= 24 ==> (StreamBit(bytes, i) <==> StreamBit(Drop(bytes, 3), i - 24))
  {
    assert i >= 24 ==> i / 8 == (i - 24) / 8 + 3 && i % 8 == (i - 24) % 8;
  }

  /** An encoding has one character for every six bits begun. */
  lemma {:induction false} EncodedLength(bytes: ByteString)
    ensures |Encoded(bytes)| == (8 * |bytes| + 5) / 6
    decreases |bytes|
  {
    if bytes == [] {
    } else {
      EncodeChunkSextets(Take(bytes, 3));
      EncodedLength(Drop(bytes, 3));
    }
  }

  lemma FirstCharacters(bytes: ByteString, j: nat, t: nat)
    requires bytes != [] && j <= |Take(bytes, 3)| && t < 6
    ensures j < |Encoded(bytes)| && Carries(Encoded(bytes)[j], t, StreamBit(bytes, 6 * j + t))
  {
    var chunk := Take(bytes, 3);
    ChunkBit(chunk, j, t);
    StreamBitOfParts(bytes, 6 * j + t);
    assert Encoded(bytes)[j] == EncodeChunk(chunk)[j];
  }

  lemma LaterCharacters(bytes: ByteString, j: nat)
    requires bytes != [] && |Take(bytes, 3)| < j < |Encoded(bytes)|
    ensures |Take(bytes, 3)| == 3 && j >= 4 && j - 4 < |Encoded(Drop(bytes, 3))|
    ensures Encoded(bytes)[j] == Encoded(Drop(bytes, 3))[j - 4]
  {
    EncodeChunkSextets(Take(bytes, 3));
  }

  /** Character `j` stands for bits 6j to 6j + 5 of the byte string, as far as bit `t` of them goes. */
  predicate CharacterIsBits(bytes: ByteString, j: nat, t: nat)
    requires t < 6
  {
    j < |Encoded(bytes)| && Carries(Encoded(bytes)[j], t, StreamBit(bytes, 6 * j + t))
  }

  lemma CharacterOneGroupOn(bytes: ByteString, j: nat, t: nat)
    requires bytes != [] && |Take(bytes, 3)| < j < |Encoded(bytes)| && t < 6
    requires j >= 4 && CharacterIsBits(Drop(bytes, 3), j - 4, t)
    ensures CharacterIsBits(bytes, j, t)
  {
    LaterCharacters(bytes, j);
    StreamBitOfParts(bytes, 6 * j + t);
    assert 6 * j + t - 24 == 6 * (j - 4) + t;
  }

  /** Every character of every encoding stands for its six bits of the byte string, highest first. */
  lemma {:induction false} CharactersAreBits(bytes: ByteString, j: nat, t: nat)
    requires t < 6
    ensures j < |Encoded(bytes)| ==> CharacterIsBits(bytes, j, t)
    decreases |bytes|
  {
    if bytes == [] || j >= |Encoded(bytes)| {
    } else if j <= |Take(bytes, 3)| {
      FirstCharacters(bytes, j, t);
    } else {
      LaterCharacters(bytes, j);
      CharactersAreBits(Drop(bytes, 3), j - 4, t);
      CharacterOneGroupOn(bytes, j, t);
    }
  }

  // -------------------------------------------------------------- decoding

  /** Bit `i` of a text over the alphabet, six to a character, highest first; zero behind its end. */
  predicate TextBit(s: string, i: nat)
    requires InAlphabet(s)
  {
    i / 6 < |s| && Bit(ValueOf(s[i / 6]).value, 5 - i % 6)
  }

  /** Value `j`, zero behind the end. */
  function ValueAt(v: seq<nat>, j: nat): nat {
    if j < |v| then v[j] else 0
  }

  lemma FoldPadded(v: seq<nat>)
    requires 1 <= |v| <= 4
    ensures Fold(v) * Padding(|v|) == ((ValueAt(v, 0) * 64 + ValueAt(v, 1)) * 64 + ValueAt(v, 2)) * 64 + ValueAt(v, 3)
  {
    if |v| == 1 {
      assert v == [v[0]];
      Fold1(v[0]);
    } else if |v| == 2 {
      assert v == [v[0], v[1]];
      Fold2(v[0], v[1]);
    } else if |v| == 3 {
      assert v == [v[0], v[1], v[2]];
      Fold3(v[0], v[1], v[2]);
    } else {
      assert v == [v[0], v[1], v[2], v[3]];
      Fold4(v[0], v[1], v[2], v[3]);
    }
  }

  /** The 24-bit group the decoder builds from up to four characters has their values as its sextets. */
  lemma GroupOfText(chunk: string)
    requires 1 <= |chunk| <= 4 && InAlphabet(chunk)
    ensures Accumulated(chunk).Some?
    ensures var n, v := Accumulated(chunk).value * Padding(|chunk|), Values(chunk);
      n < 0x100_0000 && SextetsOf(n, 4) == [ValueAt(v, 0), ValueAt(v, 1), ValueAt(v, 2), ValueAt(v, 3)]
  {
    AccumulatedIsFold(chunk);
    SextetsOfFold(Values(chunk));
  }

  lemma SextetsOfFold(v: seq<nat>)
    requires 1 <= |v| <= 4 && forall i :: 0 <= i < |v| ==> v[i] < 64
    ensures var n := Fold(v) * Padding(|v|);
      n < 0x100_0000 && SextetsOf(n, 4) == [ValueAt(v, 0), ValueAt(v, 1), ValueAt(v, 2), ValueAt(v, 3)]
  {
    FoldPadded(v);
    Reencoded4(ValueAt(v, 0), ValueAt(v, 1), ValueAt(v, 2), ValueAt(v, 3));
  }

  lemma GroupTextBit(chunk: string, i: nat)
    requires 1 <= |chunk| <= 4 && InAlphabet(chunk) && i < 24
    ensures Accumulated(chunk).Some?
    ensures Bit(Accumulated(chunk).value * Padding(|chunk|), 23 - i) <==> TextBit(chunk, i)
  {
    GroupOfText(chunk);
    var n, j, t := Accumulated(chunk).value * Padding(|chunk|), i / 6, i % 6;
    SextetBit(n, j, t);
    assert SextetsOf(n, 4)[j] == ValueAt(Values(chunk), j);
    assert i == 6 * j + t;
    ZeroBit(5 - t);
  }

  /** Byte `k` of a group, read off at its shift. */
  lemma ByteBit(n: nat, take: nat, k: nat, b: nat)
    requires k < take <= 3 && b < 8
    ensures |GroupBytes(n, take)| == take && (Bit(GroupBytes(n, take)[k], 7 - b) <==> Bit(n, 23 - (8 * k + b)))
  {
    Powers();
    ShrDivides(n, 16);
    ShrDivides(n, 8);
    var shift := 16 - 8 * k;
    assert GroupBytes(n, take)[k] == Shr(n, shift) % Pow2(8);
    BitOfRemainder(Shr(n, shift), 8, 7 - b);
    BitOfShifted(n, shift, 7 - b);
  }

  lemma ChunkBytes(chunk: string, k: nat, b: nat)
    requires 1 <= |chunk| <= 4 && InAlphabet(chunk) && b < 8
    ensures DecodeChunk(chunk).Some? && |DecodeChunk(chunk).value| == 6 * |chunk| / 8
    ensures k < |DecodeChunk(chunk).value| ==> (Bit(DecodeChunk(chunk).value[k], 7 - b) <==> TextBit(chunk, 8 * k + b))
  {
    GroupOfText(chunk);
    var take := TakeCount(|chunk|);
    assert |GroupBytes(Accumulated(chunk).value * Padding(|chunk|), take)| == take;
    if k < take {
      ByteBit(Accumulated(chunk).value * Padding(|chunk|), take, k, b);
      GroupTextBit(chunk, 8 * k + b);
    }
  }

  lemma TextBitOfParts(s: string, i: nat)
    requires InAlphabet(s)
    ensures InAlphabet(Take(s, 4)) && InAlphabet(Drop(s, 4))
    ensures i < 24 ==> (TextBit(s, i) <==> TextBit(Take(s, 4), i))
    ensures i >= 24 ==> (TextBit(s, i) <==> TextBit(Drop(s, 4), i - 24))
  {
    assert i >= 24 ==> i / 6 == (i - 24) / 6 + 4 && i % 6 == (i - 24) % 6;
  }

  /** Byte `k` of `bytes` carries bits 8k to 8k + 7 of the text, as far as bit `b` of them goes. */
  predicate ByteIsBits(s: string, bytes: ByteString, k: nat, b: nat)
    requires InAlphabet(s) && k < |bytes| && b < 8
  {
    Bit(bytes[k], 7 - b) <==> TextBit(s, 8 * k + b)
  }

  lemma ByteOneGroupOn(s: string, first: ByteString, rest: ByteString, k: nat, b: nat)
    requires InAlphabet(s) && InAlphabet(Drop(s, 4)) && |first| == 3 && b < 8
    requires 3 <= k < 3 + |rest| && ByteIsBits(Drop(s, 4), rest, k - 3, b)
    ensures ByteIsBits(s, first + rest, k, b)
  {
    TextBitOfParts(s, 8 * k + b);
    assert 8 * k + b - 24 == 8 * (k - 3) + b;
  }

  lemma ByteOfFirst(s: string, first: ByteString, rest: ByteString, k: nat, b: nat)
    requires InAlphabet(s) && InAlphabet(Take(s, 4)) && b < 8
    requires k < |first| <= 3 && ByteIsBits(Take(s, 4), first, k, b)
    ensures ByteIsBits(s, first + rest, k, b)
  {
    TextBitOfParts(s, 8 * k + b);
  }

  /**
   * Decoding, exactly: a text over the alphabet becomes as many whole bytes as its bits fill, each of them
   * the next eight bits of the text; the bits left over, zero or not, are dropped.
   */
  lemma {:induction false} BytesAreBits(s: string)
    requires InAlphabet(s)
    ensures Decoded(s).Some? && |Decoded(s).value| == 6 * |s| / 8
    ensures forall k, b :: 0 <= k < |Decoded(s).value| && 0 <= b < 8 ==> ByteIsBits(s, Decoded(s).value, k, b)
    decreases |s|
  {
    if s == "" {
    } else {
      TextBitOfParts(s, 0);
      var chunk, rest := Take(s, 4), Drop(s, 4);
      BytesAreBits(rest);
      ChunkBytes(chunk, 0, 0);
      var first, more := DecodeChunk(chunk).value, Decoded(rest).value;
      assert Decoded(s) == Some(first + more);
      forall k, b | 0 <= k < |first + more| && 0 <= b < 8 ensures ByteIsBits(s, first + more, k, b) {
        if k < |first| {
          ChunkBytes(chunk, k, b);
          ByteOfFirst(s, first, more, k, b);
        } else {
          ByteOneGroupOn(s, first, more, k, b);
        }
      }
    }
  }
}
