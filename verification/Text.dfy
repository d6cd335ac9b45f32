/** The string operations the URL, header and blocklist code is built from. */
module Text {
  import opened Common

  function LowerChar(c: char): char {
    if 'A' <= c <= 'Z' then ((c as int) + 32) as char else c
  }

  predicate IsCapital(c: char) {
    'A' <= c <= 'Z'
  }

  /** Two characters differ in casing only if they are one ASCII letter, 32 apart. */
  lemma SameLetterIff(c: char, d: char)
    ensures LowerChar(c) == LowerChar(d)
       <==> c == d || (IsCapital(c) && d as int == c as int + 32) || (IsCapital(d) && c as int == d as int + 32)
    ensures !IsCapital(LowerChar(c))
  {
  }

  /** `to_ascii_lowercase` */
  function ToLower(s: string): (t: string)
    ensures |t| == |s| && forall i :: 0 <= i < |s| ==> t[i] == LowerChar(s[i])
  {
    seq(|s|, i requires 0 <= i < |s| => LowerChar(s[i]))
  }

  /** Index of the first character of `s` that is in `stop`, or `|s|`. */
  function IndexOfAny(s: string, stop: set<char>): (i: nat)
    ensures i <= |s|
  {
    if s == "" || s[0] in stop then 0 else 1 + IndexOfAny(s[1..], stop)
  }

  /** The first `i` characters of `s` are not in `stop`, and the next one, if any, is. */
  predicate StopsAt(s: string, stop: set<char>, i: nat) {
    i <= |s| && (i < |s| ==> s[i] in stop) && Free(s[..i], stop)
  }

  lemma {:induction false} IndexStops(s: string, stop: set<char>)
    ensures StopsAt(s, stop, IndexOfAny(s, stop))
  {
    if s == "" || s[0] in stop {
    } else {
      IndexStops(s[1..], stop);
      var i := IndexOfAny(s[1..], stop);
      assert s[..1 + i] == [s[0]] + s[1..][..i];
    }
  }

  lemma IndexOfAnyIs(s: string, stop: set<char>, i: nat)
    requires StopsAt(s, stop, i)
    ensures IndexOfAny(s, stop) == i
  {
    IndexStops(s, stop);
    var k := IndexOfAny(s, stop);
    assert forall j :: 0 <= j < i ==> s[j] == s[..i][j];
    assert forall j :: 0 <= j < k ==> s[j] == s[..k][j];
  }

  /** No character of `s` is in `stop`. */
  predicate Free(s: string, stop: set<char>) {
    forall i :: 0 <= i < |s| ==> s[i] !in stop
  }

  predicate OccursAt(s: string, pattern: string, i: nat) {
    i + |pattern| <= |s| && forall k :: 0 <= k < |pattern| ==> s[i + k] == pattern[k]
  }

  lemma OccursStarts(s: string, pattern: string, i: nat)
    requires pattern != "" && OccursAt(s, pattern, i)
    ensures s[i] == pattern[0]
  {
    assert s[i + 0] == pattern[0];
  }

  lemma CutAt(s: string, pattern: string, i: nat)
    requires OccursAt(s, pattern, i)
    ensures s == s[..i] + pattern + s[i + |pattern|..]
  {
    assert s[i..i + |pattern|] == pattern;
  }

  lemma DropOfAppend(s: string, t: string, n: nat)
    requires n <= |s|
    ensures (s + t)[n..] == s[n..] + t
  {
  }

  lemma AppendAssociates(s: string, t: string, u: string)
    ensures (s + t) + u == s + (t + u)
  {
  }

  /** `find(pattern)` */
  function Find(s: string, pattern: string): (r: Option<nat>)
    ensures r.Some? ==> r.value + |pattern| <= |s|
  {
    FindFrom(s, pattern, 0)
  }

  function FindFrom(s: string, pattern: string, from: nat): (r: Option<nat>)
    requires from <= |s|
    ensures r.Some? ==> r.value + |pattern| <= |s|
    decreases |s| - from
  {
    if OccursAt(s, pattern, from) then Some(from)
    else if from == |s| then None
    else FindFrom(s, pattern, from + 1)
  }

  /** `i` is where the first occurrence of `pattern` starts. */
  predicate FirstAt(s: string, pattern: string, i: nat) {
    OccursAt(s, pattern, i) && forall j :: 0 <= j < i ==> !OccursAt(s, pattern, j)
  }

  lemma {:induction false} FindFromIff(s: string, pattern: string, from: nat, i: nat)
    requires from <= |s| && pattern != "" && forall j :: 0 <= j < from ==> !OccursAt(s, pattern, j)
    ensures FindFrom(s, pattern, from) == Some(i) <==> FirstAt(s, pattern, i)
    decreases |s| - from
  {
    if !OccursAt(s, pattern, from) && from < |s| {
      FindFromIff(s, pattern, from + 1, i);
    } else if FirstAt(s, pattern, i) {
      assert !(from < i) && !(i < from);
    }
  }

  lemma FindIff(s: string, pattern: string, i: nat)
    requires pattern != ""
    ensures Find(s, pattern) == Some(i) <==> FirstAt(s, pattern, i)
  {
    FindFromIff(s, pattern, 0, i);
  }

  // ------------------------------------------------------- split and join

  function Split(s: string, separator: char): (parts: seq<string>)
    ensures parts != []
    decreases |s|
  {
    var i := IndexOfAny(s, {separator});
    if i == |s| then [s] else [s[..i]] + Split(s[i + 1..], separator)
  }

  function Join(parts: seq<string>, separator: char): string {
    if parts == [] then "" else if |parts| == 1 then parts[0]
    else parts[0] + [separator] + Join(parts[1..], separator)
  }

  lemma {:induction false} SplitPartsFree(s: string, separator: char)
    ensures forall i :: 0 <= i < |Split(s, separator)| ==> Free(Split(s, separator)[i], {separator})
    decreases |s|
  {
    IndexStops(s, {separator});
    var i := IndexOfAny(s, {separator});
    if i == |s| {
    } else {
      SplitPartsFree(s[i + 1..], separator);
    }
  }

  lemma {:induction false} SplitOfJoin(parts: seq<string>, separator: char)
    requires parts != [] && forall i :: 0 <= i < |parts| ==> Free(parts[i], {separator})
    ensures Split(Join(parts, separator), separator) == parts
  {
    var s := Join(parts, separator);
    assert s[..|parts[0]|] == parts[0];
    if |parts| == 1 {
      IndexOfAnyIs(s, {separator}, |s|);
      assert parts == [parts[0]];
    } else {
      assert s == parts[0] + [separator] + Join(parts[1..], separator);
      IndexOfAnyIs(s, {separator}, |parts[0]|);
      assert s[..|parts[0]|] == parts[0];
      assert s[|parts[0]| + 1..] == Join(parts[1..], separator);
      SplitOfJoin(parts[1..], separator);
    }
  }

  lemma {:induction false} JoinOfSplit(s: string, separator: char)
    ensures Join(Split(s, separator), separator) == s
    decreases |s|
  {
    var i := IndexOfAny(s, {separator});
    IndexStops(s, {separator});
    if i == |s| {
    } else {
      JoinOfSplit(s[i + 1..], separator);
      assert s == s[..i] + [separator] + s[i + 1..];
      assert Split(s, separator)[1..] == Split(s[i + 1..], separator);
    }
  }

  // ---------------------------------------------------------- byte length

  /** Bytes of a character in UTF-8. */
  function CharBytes(c: char): nat {
    var n := c as int;
    if n < 0x80 then 1 else if n < 0x800 then 2 else if n < 0x1_0000 then 3 else 4
  }

  /** The largest code point that `n` bytes of UTF-8 hold: 7, 11, 16 and 21 bits. */
  function Utf8Capacity(n: nat): nat
    requires 1 <= n <= 4
  {
    if n == 1 then 0x7F else if n == 2 then 0x7FF else if n == 3 then 0xFFFF else 0x1F_FFFF
  }

  /** A character takes the fewest bytes that hold it. */
  lemma CharBytesIsLeast(c: char)
    ensures 1 <= CharBytes(c) <= 4 && c as int <= Utf8Capacity(CharBytes(c))
    ensures forall n :: 1 <= n < CharBytes(c) ==> Utf8Capacity(n) < c as int
  {
  }

  /** `str::len`: the length in bytes. */
  function Bytes(s: string): nat {
    if s == "" then 0 else CharBytes(s[0]) + Bytes(s[1..])
  }

  lemma {:induction false} BytesOfAppend(s: string, t: string)
    ensures Bytes(s + t) == Bytes(s) + Bytes(t)
  {
    if s == "" {
      assert s + t == t;
    } else {
      assert (s + t)[0] == s[0] && (s + t)[1..] == s[1..] + t;
      BytesOfAppend(s[1..], t);
    }
  }

  lemma {:induction false} BytesBound(s: string)
    ensures |s| <= Bytes(s) <= 4 * |s|
  {
    if s == "" {
    } else {
      BytesBound(s[1..]);
    }
  }
}
