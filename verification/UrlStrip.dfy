/** Removal of tracking parameters from a URL, and what it leaves alone. */
module UrlStrip {
  import opened Common
  import opened Text
  import opened UrlHost

  const MAX_STRIPPABLE_URL_LEN := 4096

  function KeyOf(part: string): string {
    part[..IndexOfAny(part, {'='})]
  }

  /** Names are stored in lower case; the empty part is never a parameter. */
  predicate Listed(part: string, names: set<string>) {
    part != "" && ToLower(KeyOf(part)) in names
  }

  function Kept(parts: seq<string>, names: set<string>): seq<string> {
    if parts == [] then []
    else
      var rest := Kept(parts[1..], names);
      if parts[0] == "" || Listed(parts[0], names) then rest else [parts[0]] + rest
  }

  predicate AnyListed(parts: seq<string>, names: set<string>) {
    exists i :: 0 <= i < |parts| && Listed(parts[i], names)
  }

  predicate HasQuery(url: string) {
    IndexOfAny(url, {'?'}) < |url|
  }

  /** Before the first '?'. */
  function Prefix(url: string): string {
    url[..IndexOfAny(url, {'?'})]
  }

  function AfterQuestionMark(url: string): string
    requires HasQuery(url)
  {
    url[IndexOfAny(url, {'?'}) + 1..]
  }

  function Query(url: string): string
    requires HasQuery(url)
  {
    var rest := AfterQuestionMark(url);
    rest[..IndexOfAny(rest, {'#'})]
  }

  /** Empty, or the leading '#' and everything after it. */
  function Fragment(url: string): string
    requires HasQuery(url)
  {
    var rest := AfterQuestionMark(url);
    rest[IndexOfAny(rest, {'#'})..]
  }

  function Parameters(url: string): seq<string> {
    if HasQuery(url) then Split(Query(url), '&') else []
  }

  function Rebuilt(prefix: string, kept: seq<string>, fragment: string): string {
    prefix + ((if kept == [] then "" else "?" + Join(kept, '&')) + fragment)
  }

  /** There is something on the list to take out, and the URL is short enough to be looked at. */
  predicate Strippable(url: string, names: set<string>) {
    Bytes(url) <= MAX_STRIPPABLE_URL_LEN && AnyListed(Parameters(url), names)
  }

  function Stripped(url: string, names: set<string>): string {
    if Strippable(url, names) then Rebuilt(Prefix(url), Kept(Parameters(url), names), Fragment(url)) else url
  }

  method StripTrackingParams(url: string, names: set<string>) returns (r: string)
    ensures r == Stripped(url, names)
  {
    if names == {} || !HasQuery(url) || Query(url) == "" {
      NothingToStrip(url, names);
    }
    if Bytes(url) > MAX_STRIPPABLE_URL_LEN || names == {} {
      return url;
    }
    if !HasQuery(url) {
      return url;
    }
    var prefix, query, fragment := Prefix(url), Query(url), Fragment(url);
    if query == "" {
      return url;
    }
    var kept, strippedAny := KeepUnlisted(Split(query, '&'), names);
    if !strippedAny {
      return url;
    }
    r := prefix;
    if kept != [] {
      r := r + "?";
      r := r + Join(kept, '&');
    }
    RebuiltFromLeft(prefix, kept, fragment);
    r := r + fragment;
  }

  /** The loop over the parts of the query. */
  method KeepUnlisted(parts: seq<string>, names: set<string>) returns (kept: seq<string>, strippedAny: bool)
    ensures kept == Kept(parts, names) && (strippedAny <==> AnyListed(parts, names))
  {
    kept, strippedAny := [], false;
    for i := 0 to |parts|
      invariant kept == Kept(parts[..i], names)
      invariant strippedAny <==> AnyListed(parts[..i], names)
    {
      assert parts[..i + 1] == parts[..i] + [parts[i]];
      AnyListedAppend(parts[..i], parts[i], names);
      KeptAppend(parts[..i], parts[i], names);
      if parts[i] == "" {
        continue;
      }
      if Listed(parts[i], names) {
        strippedAny := true;
        continue;
      }
      kept := kept + [parts[i]];
    }
    assert parts[..|parts|] == parts;
  }

  lemma {:induction false} KeptAppend(parts: seq<string>, part: string, names: set<string>)
    ensures Kept(parts + [part], names)
         == Kept(parts, names) + (if part == "" || Listed(part, names) then [] else [part])
  {
    if parts == [] {
      assert parts + [part] == [part];
    } else {
      assert (parts + [part])[1..] == parts[1..] + [part];
      KeptAppend(parts[1..], part, names);
    }
  }

  lemma RebuiltFromLeft(prefix: string, kept: seq<string>, fragment: string)
    ensures Rebuilt(prefix, kept, fragment)
         == (if kept == [] then prefix else prefix + "?" + Join(kept, '&')) + fragment
  {
    if kept == [] {
      assert "" + fragment == fragment;
    } else {
      AppendAssociates(prefix, "?" + Join(kept, '&'), fragment);
      AppendAssociates(prefix, "?", Join(kept, '&'));
    }
  }

  /** The early returns of the source: an empty list, no '?', or nothing between '?' and '#'. */
  lemma NothingToStrip(url: string, names: set<string>)
    requires names == {} || !HasQuery(url) || Query(url) == ""
    ensures !Strippable(url, names)
  {
    if HasQuery(url) && Query(url) == "" {
      assert Parameters(url) == [""];
    }
  }

  lemma AnyListedAppend(parts: seq<string>, part: string, names: set<string>)
    ensures AnyListed(parts + [part], names) <==> AnyListed(parts, names) || Listed(part, names)
  {
    assert (parts + [part])[|parts|] == part;
    assert forall i :: 0 <= i < |parts| ==> (parts + [part])[i] == parts[i];
  }

  // -------------------------------------------------------------- pieces

  lemma TakeApart(url: string)
    requires HasQuery(url)
    ensures url == Prefix(url) + ("?" + (Query(url) + Fragment(url)))
    ensures Free(Prefix(url), {'?'}) && Free(Query(url), {'#'})
    ensures Fragment(url) == "" || Fragment(url)[0] == '#'
  {
    IndexStops(url, {'?'});
    var rest := AfterQuestionMark(url);
    IndexStops(rest, {'#'});
    assert rest == Query(url) + Fragment(url);
    assert url == Prefix(url) + ["?"[0]] + rest;
  }

  lemma PutTogether(prefix: string, query: string, fragment: string)
    requires Free(prefix, {'?'}) && Free(query, {'#'}) && (fragment == "" || fragment[0] == '#')
    ensures var url := prefix + ("?" + (query + fragment));
      HasQuery(url) && Prefix(url) == prefix && Query(url) == query && Fragment(url) == fragment
  {
    var rest := query + fragment;
    var url := prefix + ("?" + rest);
    assert url[..|prefix|] == prefix && url[|prefix|] == '?';
    IndexOfAnyIs(url, {'?'}, |prefix|);
    assert url[|prefix| + 1..] == rest;
    assert rest[..|query|] == query && rest[|query|..] == fragment;
    IndexOfAnyIs(rest, {'#'}, |query|);
  }

  lemma PrefixOfAppend(front: string, s: string)
    requires Free(front, {'?'})
    ensures HasQuery(front + s) <==> HasQuery(s)
    ensures HasQuery(s) ==> AfterQuestionMark(front + s) == AfterQuestionMark(s)
  {
    IndexStops(s, {'?'});
    var i := IndexOfAny(s, {'?'});
    assert (front + s)[..|front| + i] == front + s[..i];
    IndexOfAnyIs(front + s, {'?'}, |front| + i);
    assert i < |s| ==> (front + s)[|front| + i + 1..] == s[i + 1..];
  }

  // ---------------------------------------------------------- kept parts

  lemma {:induction false} KeptUnlisted(parts: seq<string>, names: set<string>)
    ensures !AnyListed(Kept(parts, names), names)
  {
    if parts == [] {
    } else {
      KeptUnlisted(parts[1..], names);
      var rest := Kept(parts[1..], names);
      assert forall i :: 0 <= i < |rest| ==> ([parts[0]] + rest)[i + 1] == rest[i];
      if parts[0] != "" && !Listed(parts[0], names) {
        forall i | 0 <= i < |[parts[0]] + rest| ensures !Listed(([parts[0]] + rest)[i], names) {
          if i > 0 {
            assert ([parts[0]] + rest)[i] == rest[i - 1];
          }
        }
      }
    }
  }

  lemma {:induction false} SplitFree(s: string, separator: char, stop: set<char>)
    requires Free(s, stop)
    ensures forall i :: 0 <= i < |Split(s, separator)| ==> Free(Split(s, separator)[i], stop)
    decreases |s|
  {
    var i := IndexOfAny(s, {separator});
    if i == |s| {
    } else {
      SplitFree(s[i + 1..], separator, stop);
    }
  }

  lemma {:induction false} KeptFree(parts: seq<string>, names: set<string>, stop: set<char>)
    requires forall i :: 0 <= i < |parts| ==> Free(parts[i], stop)
    ensures forall i :: 0 <= i < |Kept(parts, names)| ==> Free(Kept(parts, names)[i], stop)
  {
    if parts == [] {
    } else {
      KeptFree(parts[1..], names, stop);
    }
  }

  lemma {:induction false} JoinFree(parts: seq<string>, separator: char, stop: set<char>)
    requires separator !in stop && forall i :: 0 <= i < |parts| ==> Free(parts[i], stop)
    ensures Free(Join(parts, separator), stop)
  {
    if |parts| <= 1 {
    } else {
      JoinFree(parts[1..], separator, stop);
    }
  }

  /** Bytes the parts take with one separator each. */
  function Footprint(parts: seq<string>): nat {
    if parts == [] then 0 else Bytes(parts[0]) + 1 + Footprint(parts[1..])
  }

  lemma {:induction false} FootprintOfJoin(parts: seq<string>)
    requires parts != []
    ensures Bytes(Join(parts, '&')) + 1 == Footprint(parts)
  {
    if |parts| == 1 {
      assert parts[1..] == [];
    } else {
      FootprintOfJoin(parts[1..]);
      BytesOfAppend(parts[0] + ['&'], Join(parts[1..], '&'));
      BytesOfAppend(parts[0], ['&']);
      assert ['&'][1..] == "";
      assert Bytes(['&']) == 1;
    }
  }

  lemma {:induction false} KeptIsSmaller(parts: seq<string>, names: set<string>)
    ensures Footprint(Kept(parts, names)) <= Footprint(parts)
    ensures AnyListed(parts, names) ==> Footprint(Kept(parts, names)) < Footprint(parts)
  {
    if parts == [] {
    } else {
      KeptIsSmaller(parts[1..], names);
      if AnyListed(parts, names) && !Listed(parts[0], names) {
        var i :| 0 <= i < |parts| && Listed(parts[i], names);
        assert parts[1..][i - 1] == parts[i];
      }
      FootprintCons(parts[0], Kept(parts[1..], names));
    }
  }

  lemma FootprintCons(part: string, rest: seq<string>)
    ensures Footprint([part] + rest) == Bytes(part) + 1 + Footprint(rest)
  {
    assert ([part] + rest)[1..] == rest;
  }

  lemma RebuiltBytes(prefix: string, parts: seq<string>, fragment: string)
    ensures Bytes(Rebuilt(prefix, parts, fragment)) == Bytes(prefix) + Footprint(parts) + Bytes(fragment)
  {
    if parts == [] {
      BytesOfAppend(prefix, fragment);
      assert "" + fragment == fragment;
    } else {
      FootprintOfJoin(parts);
      BytesOfPieces(prefix, Join(parts, '&'), fragment);
      AppendAssociates("?", Join(parts, '&'), fragment);
    }
  }

  /** A URL is put together from its own pieces. */
  lemma RebuildsItself(url: string)
    requires HasQuery(url)
    ensures Rebuilt(Prefix(url), Parameters(url), Fragment(url)) == url
  {
    TakeApart(url);
    JoinOfSplit(Query(url), '&');
    AppendAssociates("?", Query(url), Fragment(url));
  }

  /** Stripping a URL that has a listed parameter makes it shorter. */
  lemma StrippedIsShorter(url: string, names: set<string>)
    requires Strippable(url, names)
    ensures Bytes(Stripped(url, names)) < Bytes(url)
  {
    RebuildsItself(url);
    KeptIsSmaller(Parameters(url), names);
    RebuiltBytes(Prefix(url), Parameters(url), Fragment(url));
    RebuiltBytes(Prefix(url), Kept(Parameters(url), names), Fragment(url));
  }

  lemma BytesOfPieces(prefix: string, query: string, fragment: string)
    ensures Bytes(prefix + ("?" + (query + fragment))) == Bytes(prefix) + 1 + Bytes(query) + Bytes(fragment)
  {
    BytesOfAppend(prefix, "?" + (query + fragment));
    BytesOfAppend("?", query + fragment);
    BytesOfAppend(query, fragment);
    assert "?"[1..] == "";
    assert Bytes("?") == 1;
  }

  // ------------------------------------------------------------- results

  /** The URL is returned unchanged exactly when there was nothing to take out. */
  lemma StripChangesIff(url: string, names: set<string>)
    ensures Stripped(url, names) != url <==> Strippable(url, names)
  {
    if Strippable(url, names) {
      StrippedIsShorter(url, names);
    }
  }

  /** Every parameter went, and the fragment, promoted to the place of the query, contains listed ones itself. */
  predicate FragmentExposed(url: string, names: set<string>) {
    && Strippable(url, names)
    && Kept(Parameters(url), names) == []
    && AnyListed(Parameters(Fragment(url)), names)
  }

  /** With some parameter left, the stripped URL's parameters are the kept ones. */
  lemma ParametersKept(url: string, names: set<string>)
    requires Strippable(url, names) && Kept(Parameters(url), names) != []
    ensures Parameters(Stripped(url, names)) == Kept(Parameters(url), names)
  {
    var prefix, query, fragment, kept := Prefix(url), Query(url), Fragment(url), Kept(Parameters(url), names);
    TakeApart(url);
    SplitFree(query, '&', {'#'});
    KeptFree(Parameters(url), names, {'#'});
    JoinFree(kept, '&', {'#'});
    PutTogether(prefix, Join(kept, '&'), fragment);
    AppendAssociates("?", Join(kept, '&'), fragment);
    SplitPartsFree(query, '&');
    KeptFree(Parameters(url), names, {'&'});
    SplitOfJoin(kept, '&');
  }

  /** With none left, they are whatever the fragment holds. */
  lemma ParametersOfFragment(url: string, names: set<string>)
    requires Strippable(url, names) && Kept(Parameters(url), names) == []
    ensures Parameters(Stripped(url, names)) == Parameters(Fragment(url))
  {
    TakeApart(url);
    var prefix, fragment := Prefix(url), Fragment(url);
    assert "" + fragment == fragment;
    PrefixOfAppend(prefix, fragment);
    SameParameters(prefix + fragment, fragment);
  }

  lemma SameParameters(url: string, url': string)
    requires HasQuery(url) <==> HasQuery(url')
    requires HasQuery(url') ==> AfterQuestionMark(url) == AfterQuestionMark(url')
    ensures Parameters(url) == Parameters(url')
  {
  }

  /** Stripping again changes nothing, except exactly when all parameters went and the fragment takes their place. */
  lemma StripCompleteIff(url: string, names: set<string>)
    ensures Strippable(Stripped(url, names), names) <==> FragmentExposed(url, names)
    ensures Stripped(Stripped(url, names), names) == Stripped(url, names) <==> !FragmentExposed(url, names)
  {
    StripChangesIff(Stripped(url, names), names);
    if Strippable(url, names) {
      StrippedIsShorter(url, names);
      if Kept(Parameters(url), names) == [] {
        ParametersOfFragment(url, names);
      } else {
        ParametersKept(url, names);
        KeptUnlisted(Parameters(url), names);
      }
    }
  }

  /**
   * A listed parameter survives in exactly two cases: all parameters went and the fragment takes
   * their place, or the URL is too long to be looked at and has one.
   */
  lemma ListedSurvivesIff(url: string, names: set<string>)
    ensures AnyListed(Parameters(Stripped(url, names)), names)
       <==> FragmentExposed(url, names) || Oversized(url, names)
  {
    StripCompleteIff(url, names);
    if Strippable(url, names) {
      StrippedIsShorter(url, names);
    }
  }

  /** Over the length limit, with something on the list to take out. */
  predicate Oversized(url: string, names: set<string>) {
    Bytes(url) > MAX_STRIPPABLE_URL_LEN && AnyListed(Parameters(url), names)
  }

  lemma OneListedPart()
    ensures Split("a", '&') == ["a"] && AnyListed(["a"], {"a"}) && Kept(["a"], {"a"}) == []
  {
    IndexOfAnyIs("a", {'&'}, 1);
    IndexOfAnyIs("a", {'='}, 1);
    assert "a"[..1] == "a" && ToLower("a") == "a";
    assert Listed(["a"][0], {"a"});
    assert ["a"][1..] == [];
  }

  /** The exception is real: the only parameter goes, and the fragment turns into a query. */
  lemma ExposedFragment(front: string)
    requires Free(front, {'?'}) && Bytes(front) <= 4000
    ensures FragmentExposed(front + ("?" + ("a" + "#?a")), {"a"})
  {
    OneListedPart();
    PutTogether(front, "a", "#?a");
    BytesOfPieces(front, "a", "#?a");
    BytesBound("a");
    BytesBound("#?a");
    FragmentIsQuery();
  }

  /** The other exception is real: a fragment long enough takes the listed parameter past the stripper. */
  lemma OversizedKeepsListed(front: string, fragment: string)
    requires Free(front, {'?'})
    requires fragment != "" && fragment[0] == '#' && |fragment| >= MAX_STRIPPABLE_URL_LEN
    ensures var url := front + ("?" + ("a" + fragment));
      && Stripped(url, {"a"}) == url && Parameters(url) == ["a"]
      && Oversized(url, {"a"}) && !FragmentExposed(url, {"a"})
  {
    OneListedPart();
    PutTogether(front, "a", fragment);
    BytesOfPieces(front, "a", fragment);
    BytesBound(fragment);
  }

  lemma FragmentIsQuery()
    ensures Parameters("#?a") == ["a"]
  {
    OneListedPart();
    assert "#?a" == "#" + ("?" + ("a" + ""));
    PutTogether("#", "a", "");
  }

  // ---------------------------------------------------------------- host

  /** No '?' up to the end of the scheme separator, as in every http or https URL. */
  predicate SchemeFirst(url: string) {
    var i := Find(url, "://");
    i.Some? && Free(url[..i.value + 3], {'?'})
  }

  lemma SchemeInPrefix(url: string)
    requires SchemeFirst(url) && HasQuery(url)
    ensures Find(Prefix(url), "://") == Find(url, "://")
  {
    var i, q := Find(url, "://").value, IndexOfAny(url, {'?'});
    IndexStops(url, {'?'});
    FindIff(url, "://", i);
    assert i + 3 <= q by {
      assert forall j :: 0 <= j < i + 3 ==> url[j] == url[..i + 3][j];
    }
    var front := Prefix(url);
    assert forall j :: 0 <= j < q ==> front[j] == url[j];
    forall j | 0 <= j < i ensures !OccursAt(front, "://", j) {
      assert !OccursAt(url, "://", j);
    }
    FindIff(front, "://", i);
  }

  /** Stripping never changes the host, so the host checked against the blocklist is the one contacted. */
  lemma StripKeepsHost(url: string, names: set<string>)
    requires SchemeFirst(url)
    ensures ParseHost(Stripped(url, names)) == ParseHost(url)
  {
    if Strippable(url, names) {
      var prefix, fragment, kept := Prefix(url), Fragment(url), Kept(Parameters(url), names);
      TakeApart(url);
      SchemeInPrefix(url);
      TailIrrelevant(prefix, "?" + (Query(url) + fragment));
      TailIrrelevant(prefix, (if kept == [] then "" else "?" + Join(kept, '&')) + fragment);
    }
  }

  /** The text in front of the first '?' is kept character for character. */
  lemma StripKeepsPrefix(url: string, names: set<string>)
    ensures Prefix(url) <= Stripped(url, names)
  {
  }
}
