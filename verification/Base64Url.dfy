/**
 * The hand-written unpadded base64url codec (sections 3.5 and 5 of RFC 4648). The methods shift and
 * mask 32-bit words as the program does; the functions they are proved against use arithmetic.
 */
module Base64Url {
  import opened Common
  import opened Bits

  const UPPER := "ABCDEFGHIJKLMNOPQRSTUVWXYZ"
  const LOWER := "abcdefghijklmnopqrstuvwxyz"
  const DIGITS := "0123456789"
  const ALPHABET: string := UPPER + LOWER + DIGITS + "-_"

  /** The masks of six and of eight bits. */
  const SEXTET: nat := 0x3F
  const OCTET: nat := 0xFF

  /** Character of a six-bit value. */
  function CharOf(v: nat): char
    requires v < 64
  {
    AlphabetSize();
    ALPHABET[v]
  }

  lemma AlphabetSize()
    ensures |ALPHABET| == 64
  {
  }

  /** `val` */
  function ValueOf(c: char): (v: Option<nat>)
    ensures v.Some? ==> v.value < 64
  {
    if 'A' <= c <= 'Z' then Some(c as int - 'A' as int)
    else if 'a' <= c <= 'z' then Some(c as int - 'a' as int + 26)
    else if '0' <= c <= '9' then Some(c as int - '0' as int + 52)
    else if c == '-' then Some(62)
    else if c == '_' then Some(63)
    else None
  }

  predicate InAlphabet(s: string) {
    forall i :: 0 <= i < |s| ==> ValueOf(s[i]).Some?
  }

  // -------------------------------------------------------------- encode

  /** The 24-bit group of up to three bytes, missing ones zero. */
  function Group(chunk: ByteString): nat
    requires 1 <= |chunk| <= 3
  {
    var b0: nat := chunk[0];
    var b1: nat := if |chunk| > 1 then chunk[1] else 0;
    var b2: nat := if |chunk| > 2 then chunk[2] else 0;
    b0 * 0x1_0000 + b1 * 0x100 + b2
  }

  function EncodeChunk(chunk: ByteString): string
    requires 1 <= |chunk| <= 3
  {
    var n := Group(chunk);
    [CharOf(n / 0x4_0000 % 64), CharOf(n / 0x1000 % 64)]
    + (if |chunk| > 1 then [CharOf(n / 64 % 64)] else [])
    + (if |chunk| > 2 then [CharOf(n % 64)] else [])
  }

  function Encoded(bytes: ByteString): string
    decreases |bytes|
  {
    if bytes == [] then "" else EncodeChunk(Take(bytes, 3)) + Encoded(Drop(bytes, 3))
  }

  method Pack(chunk: ByteString) returns (n: nat)
    requires 1 <= |chunk| <= 3
    ensures n == Group(chunk)
  {
    var b0 := chunk[0];
    var b1 := if |chunk| > 1 then chunk[1] else 0;
    var b2 := if |chunk| > 2 then chunk[2] else 0;
    PackedGroup(b0, b1, b2);
    n := Or(Or(Shl(b0, 16), Shl(b1, 8)), b2);
  }

  /** The body of the encoder's loop. */
  method PushChunk(sofar: string, chunk: ByteString) returns (out: string)
    requires 1 <= |chunk| <= 3
    ensures out == sofar + EncodeChunk(chunk)
  {
    var n := Pack(chunk);
    SextetsOfGroup(n);
    out := sofar + [CharOf(And(Shr(n, 18), SEXTET))];
    out := out + [CharOf(And(Shr(n, 12), SEXTET))];
    if |chunk| > 1 {
      out := out + [CharOf(And(Shr(n, 6), SEXTET))];
    }
    if |chunk| > 2 {
      out := out + [CharOf(And(n, SEXTET))];
    }
  }

  /** Three bytes packed by shifts and ORs. */
  lemma PackedGroup(b0: nat, b1: nat, b2: nat)
    requires b0 < 256 && b1 < 256 && b2 < 256
    ensures Or(Or(Shl(b0, 16), Shl(b1, 8)), b2) == b0 * 0x1_0000 + b1 * 0x100 + b2
  {
    Powers();
    ShlIs(b0, 16);
    ShlIs(b1, 8);
    OrDisjoint(b0, b1 * 0x100, 16);
    OrDisjoint(b0 * 0x100 + b1, b2, 8);
  }

  lemma SextetField(n: nat, k: nat)
    ensures And(Shr(n, k), SEXTET) == n / Pow2(k) % 64
    ensures k == 0 ==> And(n, SEXTET) == n % 64
  {
    SextetMask();
    FieldIs(n, k, 6, SEXTET);
  }

  lemma ByteField(n: nat, k: nat)
    ensures And(Shr(n, k), OCTET) == n / Pow2(k) % 256
    ensures k == 0 ==> And(n, OCTET) == n % 256
  {
    SextetMask();
    FieldIs(n, k, 8, OCTET);
  }

  lemma SextetMask()
    ensures SEXTET == Pow2(6) - 1 && Pow2(6) == 64 && OCTET == Pow2(8) - 1 && Pow2(8) == 256
  {
    Powers();
  }

  /** The four sextets of a group. */
  lemma SextetsOfGroup(n: nat)
    ensures And(Shr(n, 18), SEXTET) == n / 0x4_0000 % 64 && And(Shr(n, 12), SEXTET) == n / 0x1000 % 64
    ensures And(Shr(n, 6), SEXTET) == n / 64 % 64 && And(n, SEXTET) == n % 64
  {
    Powers();
    SextetField(n, 18);
    SextetField(n, 12);
    SextetField(n, 6);
    SextetField(n, 0);
  }

  /** The three bytes of a group. */
  lemma BytesOfGroup(n: nat)
    ensures And(Shr(n, 16), OCTET) == n / 0x1_0000 % 256 && And(Shr(n, 8), OCTET) == n / 0x100 % 256
    ensures And(n, OCTET) == n % 256
  {
    Powers();
    ByteField(n, 16);
    ByteField(n, 8);
    ByteField(n, 0);
  }

  method Encode(bytes: ByteString) returns (out: string)
    ensures out == Encoded(bytes)
  {
    out := "";
    var rest := bytes;
    while rest != []
      invariant out + Encoded(rest) == Encoded(bytes)
      decreases |rest|
    {
      Reassociate(out, EncodeChunk(Take(rest, 3)), Encoded(Drop(rest, 3)));
      out := PushChunk(out, Take(rest, 3));
      rest := Drop(rest, 3);
    }
  }

  // -------------------------------------------------------------- decode

  /** The values of the characters, six bits each, first character highest. */
  function Accumulated(chunk: string): Option<nat> {
    if chunk == "" then Some(0)
    else
      var high := Accumulated(chunk[..|chunk| - 1]);
      var low := ValueOf(chunk[|chunk| - 1]);
      if high.Some? && low.Some? then Some(high.value * 64 + low.value) else None
  }

  /** The first `take` bytes of a 24-bit group. */
  function GroupBytes(n: nat, take: nat): ByteString {
    (if take >= 1 then [n / 0x1_0000 % 256] else [])
    + (if take >= 2 then [n / 0x100 % 256] else [])
    + (if take >= 3 then [n % 256] else [])
  }

  /** Complete bytes in a group of `length` characters. */
  function TakeCount(length: nat): nat
    requires 1 <= length <= 4
  {
    (6 * length - 2 * (4 - length)) / 8
  }

  function Padding(length: nat): nat
    requires 1 <= length <= 4
  {
    if length == 4 then 1 else if length == 3 then 0x40 else if length == 2 then 0x1000 else 0x4_0000
  }

  function DecodeChunk(chunk: string): Option<ByteString>
    requires 1 <= |chunk| <= 4
  {
    match Accumulated(chunk)
    case None => None
    case Some(n) => Some(GroupBytes(n * Padding(|chunk|), TakeCount(|chunk|)))
  }

  function Decoded(s: string): Option<ByteString>
    decreases |s|
  {
    if s == "" then Some([])
    else
      match DecodeChunk(Take(s, 4))
      case None => None
      case Some(bytes) => Prepended(bytes, Decoded(Drop(s, 4)))
  }

  /** The inner loop of the decoder. */
  method Accumulate(chunk: string) returns (r: Option<nat>)
    requires |chunk| <= 4
    ensures r == Accumulated(chunk)
    ensures r.Some? ==> r.value < Pow2(6 * |chunk|)
  {
    var n := 0;
    for i := 0 to |chunk|
      invariant Accumulated(chunk[..i]) == Some(n)
      invariant n < Pow2(6 * i)
    {
      var v := ValueOf(chunk[i]);
      assert chunk[..i + 1][..i] == chunk[..i];
      if v.None? {
        BadPrefix(chunk, i + 1);
        return None;
      }
      PushSextet(n, v.value, i);
      n := Or(Shl(n, 6), v.value);
    }
    assert chunk[..|chunk|] == chunk;
    r := Some(n);
  }

  /** Six more bits behind those of `i` characters stay within the word. */
  lemma PushSextet(n: nat, v: nat, i: nat)
    requires i < 4 && n < Pow2(6 * i) && v < 64
    ensures Or(Shl(n, 6), v) == n * 64 + v < Pow2(6 * (i + 1))
  {
    Powers();
    SextetPower(i);
    ShlIs(n, 6);
    OrDisjoint(n, v, 6);
  }

  lemma SextetPower(i: nat)
    requires i < 4
    ensures Pow2(6 * (i + 1)) == 64 * Pow2(6 * i) && Pow2(6 * i) <= 0x4_0000
  {
    Powers();
  }

  /** Filling the group up with zero bits. */
  lemma ShiftedIn(n: nat, length: nat)
    requires 1 <= length <= 4 && n < Pow2(6 * length)
    ensures Shl(n, 6 * (4 - length)) == n * Padding(length) < 0x100_0000
  {
    Powers();
    ShlIs(n, 6 * (4 - length));
  }

  /** The body of the decoder's outer loop. */
  method DecodeOne(chunk: string) returns (r: Option<ByteString>)
    requires 1 <= |chunk| <= 4
    ensures r == DecodeChunk(chunk)
  {
    var accumulated := Accumulate(chunk);
    if accumulated.None? {
      return None;
    }
    var n := accumulated.value;
    var bits := 6 * |chunk|;
    var pad := 4 - |chunk|;
    ShiftedIn(n, |chunk|);
    n := Shl(n, 6 * pad);
    bits := bits - 2 * pad;
    var take := bits / 8;
    assert take == TakeCount(|chunk|);
    BytesOfGroup(n);
    var out: ByteString := [];
    if take >= 1 {
      out := out + [And(Shr(n, 16), OCTET)];
    }
    if take >= 2 {
      out := out + [And(Shr(n, 8), OCTET)];
    }
    if take >= 3 {
      out := out + [And(n, OCTET)];
    }
    assert out == GroupBytes(n, take);
    r := Some(out);
  }

  method Decode(s: string) returns (r: Option<ByteString>)
    ensures r == Decoded(s)
  {
    var out: ByteString := [];
    var rest := s;
    PrependNothing(Decoded(s));
    while rest != ""
      invariant Decoded(s) == Prepended(out, Decoded(rest))
      decreases |rest|
    {
      var piece := DecodeOne(Take(rest, 4));
      if piece.None? {
        return None;
      }
      PrependTwice(out, piece.value, Decoded(Drop(rest, 4)));
      out := out + piece.value;
      rest := Drop(rest, 4);
    }
    assert out + [] == out;
    r := Some(out);
  }

  lemma PrependNothing(rest: Option<ByteString>)
    ensures Prepended([], rest) == rest
  {
    if rest.Some? {
      assert [] + rest.value == rest.value;
    }
  }

  function Prepended(bytes: ByteString, rest: Option<ByteString>): Option<ByteString> {
    if rest.None? then None else Some(bytes + rest.value)
  }

  lemma PrependTwice(a: ByteString, b: ByteString, rest: Option<ByteString>)
    ensures Prepended(a, Prepended(b, rest)) == Prepended(a + b, rest)
  {
    if rest.Some? {
      Reassociate(a, b, rest.value);
    }
  }

  lemma {:induction false} BadPrefix(chunk: string, i: nat)
    requires i <= |chunk| && Accumulated(chunk[..i]).None?
    ensures Accumulated(chunk).None?
    decreases |chunk| - i
  {
    if i == |chunk| {
      assert chunk[..i] == chunk;
    } else {
      assert chunk[..i + 1][..i] == chunk[..i];
      BadPrefix(chunk, i + 1);
    }
  }

  // ------------------------------------------------------------ alphabet

  /** The alphabet and `val` are inverse to each other. */
  lemma ValueOfChar(v: nat)
    requires v < 64
    ensures ValueOf(CharOf(v)) == Some(v)
  {
    AlphabetByRange(v);
  }

  lemma CharOfValue(c: char)
    requires ValueOf(c).Some?
    ensures CharOf(ValueOf(c).value) == c
  {
    AlphabetByRange(ValueOf(c).value);
  }

  lemma UpperAt(i: nat)
    requires i < 26
    ensures |UPPER| == 26 && UPPER[i] as int == 'A' as int + i
  {
  }

  lemma LowerAt(i: nat)
    requires i < 26
    ensures |LOWER| == 26 && LOWER[i] as int == 'a' as int + i
  {
  }

  lemma DigitAt(i: nat)
    requires i < 10
    ensures |DIGITS| == 10 && DIGITS[i] as int == '0' as int + i
  {
  }

  lemma AlphabetByRange(v: nat)
    requires v < 64
    ensures CharOf(v) as int == if v < 26 then 'A' as int + v
                                else if v < 52 then 'a' as int + (v - 26)
                                else if v < 62 then '0' as int + (v - 52)
                                else if v == 62 then '-' as int else '_' as int
  {
    UpperAt(if v < 26 then v else 0);
    LowerAt(if 26 <= v < 52 then v - 26 else 0);
    DigitAt(if 52 <= v < 62 then v - 52 else 0);
    AlphabetParts(v);
  }

  lemma AlphabetParts(v: nat)
    requires v < 64 && |UPPER| == 26 && |LOWER| == 26 && |DIGITS| == 10
    ensures CharOf(v) == if v < 26 then UPPER[v] else if v < 52 then LOWER[v - 26]
                         else if v < 62 then DIGITS[v - 52] else "-_"[v - 62]
  {
  }

  // ---------------------------------------------------------- one group

  /** The four six-bit values of a 24-bit group. */
  lemma Sextets(n: nat)
    requires n < 0x100_0000
    ensures var a, b, c, d := n / 0x4_0000 % 64, n / 0x1000 % 64, n / 64 % 64, n % 64;
      && ((a * 64 + b) * 64 + c) * 64 + d == n
      && (n % 64 == 0 ==> (a * 64 + b) * 64 + c == n / 64)
      && (n % 0x1000 == 0 ==> a * 64 + b == n / 0x1000)
  {
  }

  /** A group splits back into the bytes it was put together from. */
  lemma GroupSplits(b0: Byte, b1: Byte, b2: Byte)
    ensures var n := (b0 as nat) * 0x1_0000 + (b1 as nat) * 0x100 + b2;
      && n < 0x100_0000
      && n / 0x1_0000 % 256 == b0 && n / 0x100 % 256 == b1 && n % 256 == b2
  {
  }

  lemma GroupOfChunk(chunk: ByteString)
    requires 1 <= |chunk| <= 3
    ensures Group(chunk) < 0x100_0000 && GroupBytes(Group(chunk), |chunk|) == chunk
    ensures |chunk| == 1 ==> Group(chunk) % 0x1000 == 0
    ensures |chunk| == 2 ==> Group(chunk) % 64 == 0
  {
    var b1: Byte := if |chunk| > 1 then chunk[1] else 0;
    var b2: Byte := if |chunk| > 2 then chunk[2] else 0;
    GroupSplits(chunk[0], b1, b2);
    assert chunk == [chunk[0], b1, b2][..|chunk|];
    assert GroupBytes(Group(chunk), |chunk|) == [chunk[0], b1, b2][..|chunk|];
  }

  function Values(s: string): (v: seq<nat>)
    requires InAlphabet(s)
    ensures |v| == |s| && forall i :: 0 <= i < |s| ==> v[i] == ValueOf(s[i]).value
  {
    seq(|s|, i requires 0 <= i < |s| => ValueOf(s[i]).value)
  }

  /** Six-bit values read as one number, first value highest. */
  function Fold(v: seq<nat>): nat {
    if v == [] then 0 else Fold(v[..|v| - 1]) * 64 + v[|v| - 1]
  }

  lemma {:induction false} AccumulatedIsFold(s: string)
    requires InAlphabet(s)
    ensures Accumulated(s) == Some(Fold(Values(s)))
  {
    if s == "" {
    } else {
      AccumulatedIsFold(s[..|s| - 1]);
      assert Values(s)[..|s| - 1] == Values(s[..|s| - 1]);
    }
  }

  /** The first `count` six-bit values of a group. */
  function SextetsOf(n: nat, count: nat): seq<nat> {
    Take([n / 0x4_0000 % 64, n / 0x1000 % 64, n / 64 % 64, n % 64], count)
  }

  lemma Fold1(a: nat)
    ensures Fold([a]) == a
  {
    assert [a][..0] == [];
  }

  lemma Fold2(a: nat, b: nat)
    ensures Fold([a, b]) == a * 64 + b
  {
    assert [a, b][..1] == [a];
    Fold1(a);
  }

  lemma Fold3(a: nat, b: nat, c: nat)
    ensures Fold([a, b, c]) == (a * 64 + b) * 64 + c
  {
    assert [a, b, c][..2] == [a, b];
    Fold2(a, b);
  }

  lemma Fold4(a: nat, b: nat, c: nat, d: nat)
    ensures Fold([a, b, c, d]) == ((a * 64 + b) * 64 + c) * 64 + d
  {
    assert [a, b, c, d][..3] == [a, b, c];
    Fold3(a, b, c);
  }

  lemma FoldOfSextets(n: nat, length: nat)
    requires n < 0x100_0000 && 2 <= length <= 4 && n % Padding(length) == 0
    ensures Fold(SextetsOf(n, length)) == n / Padding(length)
  {
    var a, b, c, d := n / 0x4_0000 % 64, n / 0x1000 % 64, n / 64 % 64, n % 64;
    Sextets(n);
    Fold2(a, b);
    Fold3(a, b, c);
    Fold4(a, b, c, d);
    assert [a, b, c, d][..2] == [a, b] && [a, b, c, d][..3] == [a, b, c];
  }

  lemma EncodeChunkSextets(chunk: ByteString)
    requires 1 <= |chunk| <= 3
    ensures var s, v := EncodeChunk(chunk), SextetsOf(Group(chunk), |chunk| + 1);
      |s| == |v| == |chunk| + 1 && forall i :: 0 <= i < |v| ==> v[i] < 64 && s[i] == CharOf(v[i])
  {
    var n, s, v := Group(chunk), EncodeChunk(chunk), SextetsOf(Group(chunk), |chunk| + 1);
    forall i | 0 <= i < |v| ensures v[i] < 64 && s[i] == CharOf(v[i]) {
      match i
      case 0 => assert v[0] == n / 0x4_0000 % 64;
      case 1 => assert v[1] == n / 0x1000 % 64;
      case 2 => assert v[2] == n / 64 % 64;
      case _ => assert i == 3 && v[3] == n % 64;
    }
  }

  /** Reading an encoded group gives the group back, less the padding. */
  lemma EncodedGroup(chunk: ByteString)
    requires 1 <= |chunk| <= 3
    ensures |EncodeChunk(chunk)| == |chunk| + 1 && InAlphabet(EncodeChunk(chunk))
    ensures Accumulated(EncodeChunk(chunk)) == Some(Group(chunk) / Padding(|chunk| + 1))
  {
    var s, v := EncodeChunk(chunk), SextetsOf(Group(chunk), |chunk| + 1);
    EncodeChunkSextets(chunk);
    forall i | 0 <= i < |v| ensures ValueOf(s[i]) == Some(v[i]) {
      ValueOfChar(v[i]);
    }
    assert Values(s) == v;
    AccumulatedIsFold(s);
    GroupOfChunk(chunk);
    FoldOfSextets(Group(chunk), |chunk| + 1);
  }

  /** One group survives the round trip. */
  lemma ChunkRoundTrip(chunk: ByteString)
    requires 1 <= |chunk| <= 3
    ensures DecodeChunk(EncodeChunk(chunk)) == Some(chunk)
  {
    EncodedGroup(chunk);
    GroupOfChunk(chunk);
    var n, p := Group(chunk), Padding(|chunk| + 1);
    assert n / p * p == n;
  }

  // ---------------------------------------------------------- round trip

  lemma TakeDrop<T>(a: seq<T>, b: seq<T>, n: nat)
    requires |a| == n || (|a| <= n && b == [])
    ensures Take(a + b, n) == a && Drop(a + b, n) == b
  {
  }

  lemma TakePlusDrop<T>(s: seq<T>, n: nat)
    ensures Take(s, n) + Drop(s, n) == s
  {
  }

  /** Every byte string is recovered from its encoding. */
  lemma {:induction false} DecodeOfEncode(bytes: ByteString)
    ensures Decoded(Encoded(bytes)) == Some(bytes)
    decreases |bytes|
  {
    if bytes == [] {
    } else {
      var chunk, rest := Take(bytes, 3), Drop(bytes, 3);
      DecodeOfEncode(rest);
      EncodedGroup(chunk);
      ChunkRoundTrip(chunk);
      TakeDrop(EncodeChunk(chunk), Encoded(rest), 4);
      TakePlusDrop(bytes, 3);
    }
  }

  /** An encoding has no character outside the alphabet and no padding. */
  lemma {:induction false} EncodedInAlphabet(bytes: ByteString)
    ensures InAlphabet(Encoded(bytes))
    decreases |bytes|
  {
    if bytes == [] {
    } else {
      EncodedGroup(Take(bytes, 3));
      EncodedInAlphabet(Drop(bytes, 3));
    }
  }

  lemma {:induction false} AccumulatedFailsIff(chunk: string)
    ensures Accumulated(chunk).None? <==> !InAlphabet(chunk)
  {
    if chunk == "" {
    } else {
      AccumulatedFailsIff(chunk[..|chunk| - 1]);
      assert forall i :: 0 <= i < |chunk| - 1 ==> chunk[..|chunk| - 1][i] == chunk[i];
    }
  }

  /** Decoding fails exactly when some character is outside the alphabet; length is never checked. */
  lemma {:induction false} DecodeFailsIff(s: string)
    ensures Decoded(s).None? <==> !InAlphabet(s)
    decreases |s|
  {
    if s == "" {
    } else {
      var chunk, rest := Take(s, 4), Drop(s, 4);
      AccumulatedFailsIff(chunk);
      DecodeFailsIff(rest);
      TakePlusDrop(s, 4);
      assert forall i :: 0 <= i < |chunk| ==> chunk[i] == s[i];
      assert forall i :: 0 <= i < |rest| ==> rest[i] == s[|chunk| + i];
      forall i | 0 <= i < |s| ensures s[i] == if i < |chunk| then chunk[i] else rest[i - |chunk|] {
      }
    }
  }

  // ----------------------------------------------------------- canonicity

  /** The low bits of the last character that no byte is made of. */
  function UnusedBits(s: string): nat
    requires InAlphabet(s)
  {
    match |s| % 4
    case 2 => ValueOf(s[|s| - 1]).value % 16
    case 3 => ValueOf(s[|s| - 1]).value % 4
    case _ => 0
  }

  /** Encoding what a short group decodes to clears the unused bits of its last character. */
  lemma Reencoded4(a: nat, b: nat, c: nat, d: nat)
    requires a < 64 && b < 64 && c < 64 && d < 64
    ensures var n := ((a * 64 + b) * 64 + c) * 64 + d;
      n < 0x100_0000 && SextetsOf(n, 4) == [a, b, c, d]
  {
    var n := ((a * 64 + b) * 64 + c) * 64 + d;
    assert n / 64 == (a * 64 + b) * 64 + c;
    assert n / 0x1000 == a * 64 + b;
    assert n / 0x4_0000 == a;
  }

  lemma Reencoded3(a: nat, b: nat, c: nat)
    requires a < 64 && b < 64 && c < 64
    ensures var n := ((a * 64 + b) * 64 + c) * 64;
      SextetsOf(n / 0x100 * 0x100, 3) == [a, b, c - c % 4]
  {
    var q := ((a * 64 + b) * 64 + c) * 64 / 0x100;
    assert q == (a * 64 + b) * 16 + c / 4;
    Reencoded4(a, b, c / 4 * 4, 0);
  }

  lemma Reencoded2(a: nat, b: nat)
    requires a < 64 && b < 64
    ensures var n := (a * 64 + b) * 0x1000;
      SextetsOf(n / 0x1_0000 * 0x1_0000, 2) == [a, b - b % 16]
  {
    var q := (a * 64 + b) * 0x1000 / 0x1_0000;
    assert q == a * 4 + b / 16;
    Reencoded4(a, b / 16 * 16, 0, 0);
  }

  /** The values of the characters of a group, unused bits cleared. */
  function Cleared(s: string): seq<nat>
    requires InAlphabet(s) && s != ""
  {
    Values(s)[|s| - 1 := Values(s)[|s| - 1] - UnusedBits(s)]
  }

  lemma DecodedGroup(s: string)
    requires 2 <= |s| <= 4 && InAlphabet(s)
    ensures var bytes := DecodeChunk(s);
      && bytes.Some? && |bytes.value| == |s| - 1
      && SextetsOf(Group(bytes.value), |s|) == Cleared(s)
  {
    var v := Values(s);
    AccumulatedIsFold(s);
    match |s|
    case 2 =>
      assert v == [v[0], v[1]];
      Fold2(v[0], v[1]);
      Reencoded2(v[0], v[1]);
      GroupOf1((v[0] * 64 + v[1]) * 0x1000);
    case 3 =>
      assert v == [v[0], v[1], v[2]];
      Fold3(v[0], v[1], v[2]);
      Reencoded3(v[0], v[1], v[2]);
      GroupOf2(((v[0] * 64 + v[1]) * 64 + v[2]) * 64);
    case _ =>
      assert v == [v[0], v[1], v[2], v[3]];
      Fold4(v[0], v[1], v[2], v[3]);
      Reencoded4(v[0], v[1], v[2], v[3]);
      GroupOf3(((v[0] * 64 + v[1]) * 64 + v[2]) * 64 + v[3]);
  }

  lemma GroupOf1(n: nat)
    requires n < 0x100_0000
    ensures |GroupBytes(n, 1)| == 1 && Group(GroupBytes(n, 1)) == n / 0x1_0000 * 0x1_0000
  {
  }

  lemma GroupOf2(n: nat)
    requires n < 0x100_0000
    ensures |GroupBytes(n, 2)| == 2 && Group(GroupBytes(n, 2)) == n / 0x100 * 0x100
  {
  }

  lemma GroupOf3(n: nat)
    requires n < 0x100_0000
    ensures |GroupBytes(n, 3)| == 3 && Group(GroupBytes(n, 3)) == n
  {
  }

  /** Re-encoding a group gives it back exactly when its unused bits are zero. */
  lemma ChunkCanonicalIff(s: string)
    requires 2 <= |s| <= 4 && InAlphabet(s)
    ensures var bytes := DecodeChunk(s);
      && bytes.Some? && |bytes.value| == |s| - 1
      && |EncodeChunk(bytes.value)| == |s|
      && (EncodeChunk(bytes.value) == s <==> UnusedBits(s) == 0)
  {
    DecodedGroup(s);
    var bytes := DecodeChunk(s).value;
    var again, v := EncodeChunk(bytes), Cleared(s);
    EncodeChunkSextets(bytes);
    forall i | 0 <= i < |s| ensures again[i] == s[i] <==> v[i] == ValueOf(s[i]).value {
      CharOfValue(s[i]);
      ValueOfChar(v[i]);
    }
    if UnusedBits(s) == 0 {
      assert forall i :: 0 <= i < |s| ==> v[i] == ValueOf(s[i]).value;
    } else {
      assert again[|s| - 1] != s[|s| - 1];
    }
  }

  lemma OneCharacterDecodesToNothing(s: string)
    requires |s| == 1 && InAlphabet(s)
    ensures DecodeChunk(s) == Some([])
  {
    AccumulatedIsFold(s);
    assert forall n :: GroupBytes(n, 0) == [];
  }

  lemma EncodedAfterGroup(group: ByteString, rest: ByteString)
    requires |group| == 3 || (1 <= |group| <= 3 && rest == [])
    ensures Encoded(group + rest) == EncodeChunk(group) + Encoded(rest)
  {
    TakeDrop(group, rest, 3);
  }

  /** A full group comes through unchanged, whatever follows it. */
  lemma FullGroupFirst(s: string)
    requires |s| >= 4 && InAlphabet(s) && Decoded(s[4..]).Some?
    ensures Decoded(s).Some?
    ensures Encoded(Decoded(s).value) == s[..4] + Encoded(Decoded(s[4..]).value)
  {
    var chunk, rest := s[..4], s[4..];
    assert Take(s, 4) == chunk && Drop(s, 4) == rest;
    SameUnusedBits(s);
    ChunkCanonicalIff(chunk);
    EncodedAfterGroup(DecodeChunk(chunk).value, Decoded(rest).value);
  }

  /** Decoding and encoding again reproduces the text. */
  predicate Canonical(s: string) {
    Decoded(s).Some? && Encoded(Decoded(s).value) == s
  }

  lemma DecodedShort(s: string)
    requires 1 <= |s| <= 3 && DecodeChunk(s).Some?
    ensures Decoded(s) == DecodeChunk(s)
  {
    assert DecodeChunk(s).value + [] == DecodeChunk(s).value;
  }

  lemma CanonicalShortGroup(s: string)
    requires 2 <= |s| <= 3 && InAlphabet(s)
    ensures Canonical(s) <==> UnusedBits(s) == 0
  {
    ChunkCanonicalIff(s);
    DecodedShort(s);
    var bytes := DecodeChunk(s).value;
    EncodedAfterGroup(bytes, []);
    assert bytes + [] == bytes;
    assert EncodeChunk(bytes) + "" == EncodeChunk(bytes);
  }

  lemma CanonicalShort(s: string)
    requires |s| < 4 && InAlphabet(s)
    ensures Canonical(s) <==> |s| != 1 && UnusedBits(s) == 0
  {
    if |s| == 1 {
      OneCharacterDecodesToNothing(s);
      DecodedShort(s);
    } else if |s| > 1 {
      CanonicalShortGroup(s);
    }
  }

  lemma CanonicalStep(s: string)
    requires |s| >= 4 && InAlphabet(s)
    ensures Canonical(s) <==> Canonical(s[4..])
  {
    SameUnusedBits(s);
    DecodeFailsIff(s[4..]);
    FullGroupFirst(s);
    SamePrefix(s[..4], Encoded(Decoded(s[4..]).value), s[4..]);
    assert s == s[..4] + s[4..];
  }

  lemma SamePrefix(a: string, b: string, c: string)
    ensures a + b == a + c <==> b == c
  {
    if a + b == a + c {
      assert b == (a + b)[|a|..] && c == (a + c)[|a|..];
    }
  }

  /**
   * A text over the alphabet is canonical exactly when its length is not 1 modulo 4 and the unused
   * bits of its last character are zero. (A single left-over character is accepted and dropped.)
   */
  lemma {:induction false} CanonicalIff(s: string)
    requires InAlphabet(s)
    ensures Canonical(s) <==> |s| % 4 != 1 && UnusedBits(s) == 0
    decreases |s|
  {
    if |s| >= 4 {
      SameUnusedBits(s);
      CanonicalIff(s[4..]);
      CanonicalStep(s);
    } else {
      CanonicalShort(s);
    }
  }

  lemma SameUnusedBits(s: string)
    requires |s| >= 4 && InAlphabet(s)
    ensures InAlphabet(s[..4]) && InAlphabet(s[4..])
    ensures UnusedBits(s[..4]) == 0 && UnusedBits(s) == UnusedBits(s[4..]) && |s| % 4 == |s[4..]| % 4
  {
    assert |s[4..]| == |s| - 4;
    if |s| > 4 {
      assert s[4..][|s| - 5] == s[|s| - 1];
    }
  }
}
