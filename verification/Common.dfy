/** Types and small facts shared by every module of the model. */
module Common {

  datatype Option<+T> = None | Some(value: T)

  datatype Result<+T, +E> = Success(value: T) | Failure(error: E)

  datatype Uuid = Uuid(bits: nat)

  /** The two privacy modes. */
  datatype Mode = Standard | Strict

  const TWO_32: nat := 0x1_0000_0000

  const TWO_64: nat := 0x1_0000_0000_0000_0000

  /** Rust's `u64`. */
  type U64 = n: nat | n < TWO_64

  function WrappingIncrement(n: U64): U64 {
    (n + 1) % TWO_64
  }

  function SaturatingAdd(a: U64, b: U64): U64 {
    if a + b < TWO_64 then a + b else TWO_64 - 1
  }

  function SaturatingSub(a: U64, b: U64): U64 {
    if b <= a then a - b else 0
  }

  type Byte = n: nat | n < 256

  type ByteString = seq<Byte>

  function Take<T>(s: seq<T>, n: nat): seq<T> {
    if |s| <= n then s else s[..n]
  }

  function Drop<T>(s: seq<T>, n: nat): seq<T> {
    if |s| <= n then [] else s[n..]
  }

  lemma Reassociate<T>(a: seq<T>, b: seq<T>, c: seq<T>)
    ensures (a + b) + c == a + (b + c)
  {
  }

  predicate NoDuplicates<T(==)>(s: seq<T>) {
    forall i, j :: 0 <= i < j < |s| ==> s[i] != s[j]
  }

  /** `iter().position(|y| y == x)`: the first index of `x` in `s`, or `|s|`. */
  function Position<T(==)>(s: seq<T>, x: T): (k: nat)
    ensures k <= |s|
    ensures k < |s| ==> s[k] == x
    ensures forall i :: 0 <= i < k ==> s[i] != x
    ensures k == |s| <==> x !in s
  {
    if s == [] || s[0] == x then 0 else 1 + Position(s[1..], x)
  }

  lemma PositionIs<T>(s: seq<T>, x: T, k: nat)
    requires k < |s| && s[k] == x && forall i :: 0 <= i < k ==> s[i] != x
    ensures Position(s, x) == k
  {
    assert !(Position(s, x) < k) && !(k < Position(s, x));
  }

  function RemoveAt<T>(s: seq<T>, k: nat): seq<T>
    requires k < |s|
  {
    s[..k] + s[k + 1..]
  }

  /** Drops the first occurrence of `x`, if there is one. */
  function Without<T(==)>(s: seq<T>, x: T): seq<T> {
    var k := Position(s, x);
    if k < |s| then RemoveAt(s, k) else s
  }

  lemma WithoutKeepsOthers<T>(s: seq<T>, x: T)
    requires NoDuplicates(s)
    ensures NoDuplicates(Without(s, x))
    ensures forall y :: y in Without(s, x) <==> y in s && y != x
  {
    var k := Position(s, x);
    if k < |s| {
      var t := RemoveAt(s, k);
      forall y ensures y in t <==> y in s && y != x {
        if y in s && y != x {
          var i :| 0 <= i < |s| && s[i] == y;
          assert t[if i < k then i else i - 1] == y;
        }
      }
    }
  }

  lemma {:induction false} PositionOfAppend<T>(s: seq<T>, t: seq<T>, x: T)
    requires x !in s
    ensures Position(s + t, x) == |s| + Position(t, x)
  {
    if s == [] {
      assert s + t == t;
    } else {
      assert (s + t)[0] == s[0] && (s + t)[1..] == s[1..] + t;
      PositionOfAppend(s[1..], t, x);
    }
  }
}
