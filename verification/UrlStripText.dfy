/** The tracking-parameter strip on the text of a URL: what is written out, part by part. */
module UrlStripText {
  import opened Common
  import opened Text
  import opened UrlStrip

  /** The key of a parameter is what stands before its first '='; casing is ignored, and the value. */
  lemma ListedByKey(name: string, value: string, names: set<string>)
    requires Free(name, {'='})
    ensures Listed(name + "=" + value, names) <==> ToLower(name) in names
    ensures name != "" ==> (Listed(name, names) <==> ToLower(name) in names)
    ensures !Listed("", names)
  {
    var part := name + "=" + value;
    assert part[..|name|] == name && part[|name|] == '=';
    IndexOfAnyIs(part, {'='}, |name|);
    assert name[..|name|] == name;
    IndexOfAnyIs(name, {'='}, |name|);
  }

  /** A part that is written out again: neither empty nor listed. */
  predicate Stays(part: string, names: set<string>) {
    part != "" && !Listed(part, names)
  }

  /** Where the parts that stay stand. */
  function Positions(parts: seq<string>, names: set<string>): seq<nat> {
    if parts == [] then []
    else
      var n := |parts| - 1;
      var before := Positions(parts[..n], names);
      if Stays(parts[n], names) then before + [n] else before
  }

  lemma {:induction false} PositionsAreThose(parts: seq<string>, names: set<string>)
    ensures var at := Positions(parts, names);
      && (forall i :: 0 <= i < |at| ==> at[i] < |parts|)
      && (forall k :: k in at <==> 0 <= k < |parts| && Stays(parts[k], names))
      && (forall i, j :: 0 <= i < j < |at| ==> at[i] < at[j])
  {
    if parts == [] {
    } else {
      var n := |parts| - 1;
      PositionsAreThose(parts[..n], names);
      assert forall k :: 0 <= k < n ==> parts[..n][k] == parts[k];
    }
  }

  /** The kept parts are exactly those that stay, each once, unchanged and in their order. */
  lemma {:induction false} KeptInOrder(parts: seq<string>, names: set<string>)
    ensures var at, kept := Positions(parts, names), Kept(parts, names);
      |kept| == |at| && forall i :: 0 <= i < |at| ==> at[i] < |parts| && kept[i] == parts[at[i]]
  {
    if parts == [] {
    } else {
      var n := |parts| - 1;
      KeptInOrder(parts[..n], names);
      KeptAppend(parts[..n], parts[n], names);
      assert parts == parts[..n] + [parts[n]];
    }
  }

  /** A part of a query: no separator and no start of a fragment in it. */
  predicate AreParts(parts: seq<string>) {
    parts != [] && forall i :: 0 <= i < |parts| ==> Free(parts[i], {'&', '#'})
  }

  /**
   * The rewrite, on text: a URL of at most 4096 bytes with something listed comes back with the parts
   * that stay between the same prefix and the same fragment, and without a '?' if none stays.
   */
  lemma StrippedText(prefix: string, parts: seq<string>, fragment: string, names: set<string>)
    requires Free(prefix, {'?'}) && AreParts(parts) && (fragment == "" || fragment[0] == '#')
    ensures var url := prefix + ("?" + (Join(parts, '&') + fragment));
      && Parameters(url) == parts
      && (Bytes(url) <= 4096 && AnyListed(parts, names) ==>
            Stripped(url, names)
            == (if Kept(parts, names) == [] then prefix else prefix + "?" + Join(Kept(parts, names), '&')) + fragment)
      && (Bytes(url) > 4096 || !AnyListed(parts, names) ==> Stripped(url, names) == url)
  {
    JoinFree(parts, '&', {'#'});
    PutTogether(prefix, Join(parts, '&'), fragment);
    SplitOfJoin(parts, '&');
    RebuiltFromLeft(prefix, Kept(parts, names), fragment);
  }
}
