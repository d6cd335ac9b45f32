/** The outbound header scrubber: managed headers first, forbidden ones gone, the rest untouched. */
module HeaderScrub {
  import opened Common
  import opened Text

  datatype Header = Header(name: string, value: string)

  datatype RefererPolicy = StrictOriginWhenCrossOrigin | NoReferrer

  datatype HeaderPolicy = HeaderPolicy(
    mode: Mode,
    referer: RefererPolicy,
    userAgent: string,
    acceptLanguage: string,
    acceptEncoding: string,
    acceptDefault: string,
    sendDnt: bool,
    sendSecGpc: bool)

  const USER_AGENT := "Mozilla/5.0 (X11; Linux x86_64; rv:128.0) Gecko/20100101 Firefox/128.0"
  const ACCEPT_LANGUAGE := "en-US,en;q=0.5"
  const ACCEPT_ENCODING := "gzip, br, zstd"
  const ACCEPT_DEFAULT :=
    "text/html,application/xhtml+xml,application/xml;q=0.9,image/avif,image/webp,*/*;q=0.8"

  function PolicyFor(mode: Mode): HeaderPolicy {
    HeaderPolicy(mode, if mode == Standard then StrictOriginWhenCrossOrigin else NoReferrer,
                 USER_AGENT, ACCEPT_LANGUAGE, ACCEPT_ENCODING, ACCEPT_DEFAULT, true, true)
  }

  const STRIP_NAMES: seq<string> := [
    "cookie", "sec-ch-ua", "sec-ch-ua-mobile", "sec-ch-ua-platform", "sec-ch-ua-platform-version",
    "sec-ch-ua-arch", "sec-ch-ua-bitness", "sec-ch-ua-full-version", "sec-ch-ua-full-version-list",
    "sec-ch-ua-model", "sec-ch-ua-wow64", "x-requested-with", "x-forwarded-for", "x-forwarded-host",
    "x-forwarded-proto", "x-forwarded-port", "via", "forwarded"]

  const OVERRIDE_NAMES: seq<string> := [
    "user-agent", "accept-language", "accept-encoding", "referer", "dnt", "sec-gpc"]

  /** Origin only, nothing for an empty origin, and nothing over plain http. */
  function ComputeReferer(policy: RefererPolicy, siteOrigin: string, targetUrl: string): Option<string> {
    if policy == NoReferrer || siteOrigin == "" then None
    else if |targetUrl| >= 7 && ToLower(targetUrl[..7]) == "http://" then None
    else Some("https://" + siteOrigin + "/")
  }

  predicate Strips(name: string) {
    ToLower(name) in STRIP_NAMES
  }

  predicate Overrides(name: string) {
    ToLower(name) in OVERRIDE_NAMES
  }

  predicate PassesThrough(h: Header) {
    !Strips(h.name) && !Overrides(h.name)
  }

  predicate IsAccept(h: Header) {
    ToLower(h.name) == "accept"
  }

  /** What the policy injects, whatever the renderer sent. */
  function Managed(policy: HeaderPolicy, siteOrigin: string, targetUrl: string): seq<Header> {
    var referer := ComputeReferer(policy.referer, siteOrigin, targetUrl);
    [Header("User-Agent", policy.userAgent),
     Header("Accept-Language", policy.acceptLanguage),
     Header("Accept-Encoding", policy.acceptEncoding)]
    + (if policy.sendDnt then [Header("DNT", "1")] else [])
    + (if policy.sendSecGpc then [Header("Sec-GPC", "1")] else [])
    + (if referer.Some? then [Header("Referer", referer.value)] else [])
  }

  /** The headers that satisfy `keep`, in order. */
  function Filter(keep: Header -> bool, headers: seq<Header>): seq<Header> {
    if headers == [] then []
    else
      var rest := Filter(keep, headers[1..]);
      if keep(headers[0]) then [headers[0]] + rest else rest
  }

  predicate Any(p: Header -> bool, headers: seq<Header>) {
    exists i :: 0 <= i < |headers| && p(headers[i])
  }

  function Passed(headers: seq<Header>): seq<Header> {
    Filter(PassesThrough, headers)
  }

  predicate AnyAccept(headers: seq<Header>) {
    Any(IsAccept, headers)
  }

  function DefaultAccept(policy: HeaderPolicy, headers: seq<Header>): seq<Header> {
    if AnyAccept(headers) then [] else [Header("Accept", policy.acceptDefault)]
  }

  function Scrubbed(policy: HeaderPolicy, siteOrigin: string, targetUrl: string, headers: seq<Header>): seq<Header> {
    Managed(policy, siteOrigin, targetUrl) + Passed(headers) + DefaultAccept(policy, headers)
  }

  method Scrub(policy: HeaderPolicy, siteOrigin: string, targetUrl: string, headers: seq<Header>)
    returns (out: seq<Header>)
    ensures out == Scrubbed(policy, siteOrigin, targetUrl, headers)
  {
    out := [Header("User-Agent", policy.userAgent)];
    out := out + [Header("Accept-Language", policy.acceptLanguage)];
    out := out + [Header("Accept-Encoding", policy.acceptEncoding)];
    if policy.sendDnt {
      out := out + [Header("DNT", "1")];
    }
    if policy.sendSecGpc {
      out := out + [Header("Sec-GPC", "1")];
    }
    var referer := ComputeReferer(policy.referer, siteOrigin, targetUrl);
    if referer.Some? {
      out := out + [Header("Referer", referer.value)];
    }
    ghost var managed := Managed(policy, siteOrigin, targetUrl);
    assert out == managed;
    var rendererSuppliedAccept := false;
    for i := 0 to |headers|
      invariant out == managed + Passed(headers[..i])
      invariant rendererSuppliedAccept <==> AnyAccept(headers[..i])
    {
      assert headers[..i + 1] == headers[..i] + [headers[i]];
      FilterOfAppend(PassesThrough, headers[..i], [headers[i]]);
      FilterOfOne(PassesThrough, headers[i]);
      AnyOfAppend(IsAccept, headers[..i], [headers[i]]);
      AnyOfOne(IsAccept, headers[i]);
      var lower := ToLower(headers[i].name);
      if lower in STRIP_NAMES {
        AcceptIsNotManaged(headers[i]);
        continue;
      }
      if lower in OVERRIDE_NAMES {
        AcceptIsNotManaged(headers[i]);
        continue;
      }
      if lower == "accept" {
        rendererSuppliedAccept := true;
      }
      out := out + [headers[i]];
    }
    assert headers[..|headers|] == headers;
    if !rendererSuppliedAccept {
      out := out + [Header("Accept", policy.acceptDefault)];
    }
  }

  lemma {:induction false} FilterOfAppend(keep: Header -> bool, s: seq<Header>, t: seq<Header>)
    ensures Filter(keep, s + t) == Filter(keep, s) + Filter(keep, t)
  {
    if s == [] {
      assert s + t == t;
    } else {
      assert (s + t)[0] == s[0] && (s + t)[1..] == s[1..] + t;
      FilterOfAppend(keep, s[1..], t);
    }
  }

  lemma FilterOfOne(keep: Header -> bool, h: Header)
    ensures Filter(keep, [h]) == if keep(h) then [h] else []
  {
    assert [h][1..] == [];
  }

  lemma AnyOfAppend(p: Header -> bool, s: seq<Header>, t: seq<Header>)
    ensures Any(p, s + t) <==> Any(p, s) || Any(p, t)
  {
    assert forall i :: 0 <= i < |s| ==> (s + t)[i] == s[i];
    assert forall i :: 0 <= i < |t| ==> (s + t)[|s| + i] == t[i];
    if Any(p, s + t) && !Any(p, s) {
      var i :| 0 <= i < |s + t| && p((s + t)[i]);
      assert p(t[i - |s|]);
    }
  }

  lemma AnyOfOne(p: Header -> bool, h: Header)
    ensures Any(p, [h]) <==> p(h)
  {
    assert [h][0] == h;
  }

  lemma AcceptIsNotManaged(h: Header)
    ensures IsAccept(h) ==> PassesThrough(h)
  {
    assert "accept" !in STRIP_NAMES && "accept" !in OVERRIDE_NAMES;
  }

  // ------------------------------------------------------------- results

  lemma {:induction false} FilterOfAll(keep: Header -> bool, s: seq<Header>)
    requires forall i :: 0 <= i < |s| ==> keep(s[i])
    ensures Filter(keep, s) == s
  {
    if s == [] {
    } else {
      FilterOfAll(keep, s[1..]);
    }
  }

  lemma {:induction false} FilterOfNone(keep: Header -> bool, s: seq<Header>)
    requires !Any(keep, s)
    ensures Filter(keep, s) == []
  {
    if s == [] {
    } else {
      assert s == [s[0]] + s[1..];
      AnyOfAppend(keep, [s[0]], s[1..]);
      AnyOfOne(keep, s[0]);
      FilterOfNone(keep, s[1..]);
    }
  }

  lemma {:induction false} FilterKeeps(keep: Header -> bool, s: seq<Header>)
    ensures forall i :: 0 <= i < |Filter(keep, s)| ==> keep(Filter(keep, s)[i])
  {
    if s == [] {
    } else {
      FilterKeeps(keep, s[1..]);
    }
  }

  /** Filtering on a weaker property loses no header that satisfies `p`. */
  lemma {:induction false} FilterKeepsAny(keep: Header -> bool, p: Header -> bool, s: seq<Header>)
    requires forall h :: p(h) ==> keep(h)
    ensures Any(p, Filter(keep, s)) <==> Any(p, s)
  {
    if s == [] {
    } else {
      FilterKeepsAny(keep, p, s[1..]);
      assert s == [s[0]] + s[1..];
      AnyOfAppend(p, [s[0]], s[1..]);
      AnyOfAppend(p, [s[0]], Filter(keep, s[1..]));
      AnyOfOne(p, s[0]);
    }
  }

  /** Where the satisfying headers stand. */
  function Positions(keep: Header -> bool, headers: seq<Header>): seq<nat> {
    if headers == [] then []
    else
      var n := |headers| - 1;
      Positions(keep, headers[..n]) + (if keep(headers[n]) then [n] else [])
  }

  lemma {:induction false} PositionsAreThose(keep: Header -> bool, headers: seq<Header>)
    ensures forall i :: 0 <= i < |Positions(keep, headers)| ==> Positions(keep, headers)[i] < |headers|
    ensures forall k :: k in Positions(keep, headers) <==> 0 <= k < |headers| && keep(headers[k])
    ensures forall i, j :: 0 <= i < j < |Positions(keep, headers)| ==> Positions(keep, headers)[i] < Positions(keep, headers)[j]
  {
    if headers == [] {
    } else {
      PositionsAreThose(keep, headers[..|headers| - 1]);
    }
  }

  /**
   * What a filter keeps are the satisfying headers, each once, unchanged and in their order: the
   * i-th one kept is the one at the i-th of those positions.
   */
  lemma {:induction false} FilterInOrder(keep: Header -> bool, headers: seq<Header>)
    ensures var at := Positions(keep, headers);
      && |Filter(keep, headers)| == |at|
      && forall i :: 0 <= i < |at| ==> at[i] < |headers| && Filter(keep, headers)[i] == headers[at[i]]
  {
    if headers == [] {
    } else {
      var n := |headers| - 1;
      var before, last := headers[..n], headers[n];
      FilterInOrder(keep, before);
      assert headers == before + [last];
      FilterOfAppend(keep, before, [last]);
      FilterOfOne(keep, last);
    }
  }

  /** The lower-case names of the managed headers. */
  lemma ManagedLowerNames()
    ensures ToLower("User-Agent") == "user-agent" && ToLower("Accept-Language") == "accept-language"
    ensures ToLower("Accept-Encoding") == "accept-encoding" && ToLower("DNT") == "dnt"
    ensures ToLower("Sec-GPC") == "sec-gpc" && ToLower("Referer") == "referer"
  {
  }

  /** The three name classes do not overlap. */
  lemma OverriddenIsNotStripped(lower: string)
    requires lower in OVERRIDE_NAMES
    ensures lower !in STRIP_NAMES && lower != "accept"
  {
  }

  /** The injected headers, by lower-case name, in the order they can occur. */
  function Slot(h: Header): nat {
    var lower := ToLower(h.name);
    if lower == "user-agent" then 0 else if lower == "accept-language" then 1
    else if lower == "accept-encoding" then 2 else if lower == "dnt" then 3
    else if lower == "sec-gpc" then 4 else if lower == "referer" then 5 else 6
  }

  lemma SlotIsOverride(h: Header)
    requires Slot(h) < 6
    ensures Overrides(h.name) && !PassesThrough(h) && !IsAccept(h) && !Strips(h.name)
  {
    assert ToLower(h.name) == OVERRIDE_NAMES[match Slot(h) case 0 => 0 case 1 => 1 case 2 => 2 case 3 => 4 case 4 => 5 case _ => 3];
    OverriddenIsNotStripped(ToLower(h.name));
  }

  lemma ManagedSlots(policy: HeaderPolicy, siteOrigin: string, targetUrl: string)
    ensures var m := Managed(policy, siteOrigin, targetUrl);
      && (forall i :: 0 <= i < |m| ==> Slot(m[i]) < 6)
      && (forall i, j :: 0 <= i < j < |m| ==> Slot(m[i]) < Slot(m[j]))
  {
    ManagedLowerNames();
  }

  /** Every injected header is one the renderer cannot set, and no two have the same name in any casing. */
  lemma ManagedOnce(policy: HeaderPolicy, siteOrigin: string, targetUrl: string)
    ensures var m := Managed(policy, siteOrigin, targetUrl);
      && (forall i :: 0 <= i < |m| ==> Overrides(m[i].name) && !Strips(m[i].name))
      && (forall i, j :: 0 <= i < j < |m| ==> ToLower(m[i].name) != ToLower(m[j].name))
      && !Any(PassesThrough, m) && !AnyAccept(m)
  {
    ManagedSlots(policy, siteOrigin, targetUrl);
    var m := Managed(policy, siteOrigin, targetUrl);
    forall i | 0 <= i < |m| ensures Overrides(m[i].name) && !PassesThrough(m[i]) && !IsAccept(m[i]) && !Strips(m[i].name) {
      SlotIsOverride(m[i]);
    }
  }

  lemma DefaultAcceptPasses(policy: HeaderPolicy)
    ensures IsAccept(Header("Accept", policy.acceptDefault)) && PassesThrough(Header("Accept", policy.acceptDefault))
  {
    assert ToLower("Accept") == "accept";
    AcceptIsNotManaged(Header("Accept", policy.acceptDefault));
  }

  lemma PassedKeepsAccept(headers: seq<Header>)
    ensures AnyAccept(Passed(headers)) <==> AnyAccept(headers)
  {
    forall h ensures IsAccept(h) ==> PassesThrough(h) {
      AcceptIsNotManaged(h);
    }
    FilterKeepsAny(PassesThrough, IsAccept, headers);
  }

  /** Everything behind the managed headers. */
  function Tail(policy: HeaderPolicy, headers: seq<Header>): seq<Header> {
    Passed(headers) + DefaultAccept(policy, headers)
  }

  lemma ScrubbedIsManagedAndTail(policy: HeaderPolicy, siteOrigin: string, targetUrl: string, headers: seq<Header>)
    ensures Scrubbed(policy, siteOrigin, targetUrl, headers)
         == Managed(policy, siteOrigin, targetUrl) + Tail(policy, headers)
  {
  }

  /** The tail passes a second scrub untouched, and has an Accept header. */
  lemma TailPasses(policy: HeaderPolicy, headers: seq<Header>)
    ensures forall i :: 0 <= i < |Tail(policy, headers)| ==> PassesThrough(Tail(policy, headers)[i])
    ensures Passed(Tail(policy, headers)) == Tail(policy, headers) && AnyAccept(Tail(policy, headers))
  {
    FilterKeeps(PassesThrough, headers);
    DefaultAcceptPasses(policy);
    FilterOfAll(PassesThrough, Tail(policy, headers));
    PassedKeepsAccept(headers);
    AnyOfAppend(IsAccept, Passed(headers), DefaultAccept(policy, headers));
    AnyOfOne(IsAccept, Header("Accept", policy.acceptDefault));
  }

  /** Scrubbing twice is scrubbing once. */
  lemma ScrubIsIdempotent(policy: HeaderPolicy, siteOrigin: string, targetUrl: string, headers: seq<Header>)
    ensures var once := Scrubbed(policy, siteOrigin, targetUrl, headers);
      Scrubbed(policy, siteOrigin, targetUrl, once) == once
  {
    var m, tail := Managed(policy, siteOrigin, targetUrl), Tail(policy, headers);
    ScrubbedIsManagedAndTail(policy, siteOrigin, targetUrl, headers);
    TailPasses(policy, headers);
    ManagedOnce(policy, siteOrigin, targetUrl);
    FilterOfNone(PassesThrough, m);
    FilterOfAppend(PassesThrough, m, tail);
    AnyOfAppend(IsAccept, m, tail);
    SecondScrub(policy, siteOrigin, targetUrl, m + tail, tail);
  }

  lemma SecondScrub(policy: HeaderPolicy, siteOrigin: string, targetUrl: string, once: seq<Header>, tail: seq<Header>)
    requires Passed(once) == tail && AnyAccept(once)
    ensures Scrubbed(policy, siteOrigin, targetUrl, once) == Managed(policy, siteOrigin, targetUrl) + tail
  {
  }

  /**
   * No stripped name survives in any casing, and every managed name that occurs, in any casing, is
   * one of the injected headers: its value cannot depend on what the renderer sent.
   */
  lemma OnlyPolicyValues(policy: HeaderPolicy, siteOrigin: string, targetUrl: string, headers: seq<Header>, i: nat)
    requires i < |Scrubbed(policy, siteOrigin, targetUrl, headers)|
    ensures var m, h := Managed(policy, siteOrigin, targetUrl), Scrubbed(policy, siteOrigin, targetUrl, headers)[i];
      && !Strips(h.name)
      && (Overrides(h.name) <==> i < |m|)
      && (Overrides(h.name) ==> h == m[i])
  {
    var m := Managed(policy, siteOrigin, targetUrl);
    ScrubbedIsManagedAndTail(policy, siteOrigin, targetUrl, headers);
    ManagedOnce(policy, siteOrigin, targetUrl);
    TailPasses(policy, headers);
    if i >= |m| {
      assert PassesThrough(Tail(policy, headers)[i - |m|]);
    }
  }

  /** An Accept header is in every output: the renderer's own, or else exactly one default at the end. */
  lemma AcceptAlwaysPresent(policy: HeaderPolicy, siteOrigin: string, targetUrl: string, headers: seq<Header>)
    ensures var out, m := Scrubbed(policy, siteOrigin, targetUrl, headers), Managed(policy, siteOrigin, targetUrl);
      && AnyAccept(out)
      && !AnyAccept(m)
      && (AnyAccept(Passed(headers)) <==> AnyAccept(headers))
      && out == m + Passed(headers) + (if AnyAccept(headers) then [] else [Header("Accept", policy.acceptDefault)])
  {
    ScrubbedIsManagedAndTail(policy, siteOrigin, targetUrl, headers);
    TailPasses(policy, headers);
    ManagedOnce(policy, siteOrigin, targetUrl);
    PassedKeepsAccept(headers);
    AnyOfAppend(IsAccept, Managed(policy, siteOrigin, targetUrl), Tail(policy, headers));
  }

  /** A Referer leaves only under the Standard policy, never over plain http, and is the bare origin. */
  lemma RefererIff(mode: Mode, siteOrigin: string, targetUrl: string, value: string)
    ensures Header("Referer", value) in Managed(PolicyFor(mode), siteOrigin, targetUrl)
       <==> && mode == Standard && siteOrigin != ""
            && !(|targetUrl| >= 7 && ToLower(targetUrl[..7]) == "http://")
            && value == "https://" + siteOrigin + "/"
  {
    var m := Managed(PolicyFor(mode), siteOrigin, targetUrl);
    var referer := ComputeReferer(PolicyFor(mode).referer, siteOrigin, targetUrl);
    assert |"Referer"| == 7 && "DNT"[0] != "Referer"[0];
    if referer.Some? {
      assert m[|m| - 1] == Header("Referer", referer.value);
    }
  }

  predicate IsLower(name: string) {
    ToLower(name) == name
  }

  /** A header that passes through although its name is not in lower case. */
  predicate PassesMixedCase(h: Header) {
    PassesThrough(h) && !IsLower(h.name)
  }

  /**
   * The comment's promise that names leave in lower case is kept for no request: the first header never
   * is. Of the renderer's headers one leaves in mixed case exactly when one that passes came in so.
   */
  lemma NamesNotLowered(policy: HeaderPolicy, siteOrigin: string, targetUrl: string, headers: seq<Header>)
    ensures var out := Scrubbed(policy, siteOrigin, targetUrl, headers); out != [] && !IsLower(out[0].name)
    ensures Any(PassesMixedCase, Passed(headers)) <==> Any(PassesMixedCase, headers)
    ensures Any(PassesMixedCase, Passed(headers)) ==>
      Any(PassesMixedCase, Scrubbed(policy, siteOrigin, targetUrl, headers))
  {
    var m := Managed(policy, siteOrigin, targetUrl);
    ManagedLowerNames();
    assert m[0].name == "User-Agent" && ToLower("User-Agent")[0] == 'u';
    FilterKeepsAny(PassesThrough, PassesMixedCase, headers);
    AnyOfAppend(PassesMixedCase, m, Passed(headers));
    AnyOfAppend(PassesMixedCase, m + Passed(headers), DefaultAccept(policy, headers));
  }

  /** Which renderer headers pass: those whose name, in any casing, is on neither list. */
  lemma PassesIff(h: Header)
    ensures PassesThrough(h) <==>
      && (forall k :: 0 <= k < |STRIP_NAMES| ==> ToLower(h.name) != STRIP_NAMES[k])
      && (forall k :: 0 <= k < |OVERRIDE_NAMES| ==> ToLower(h.name) != OVERRIDE_NAMES[k])
  {
  }

  /** No name on the strip list leaves, in any casing, whatever the renderer sent. */
  lemma NoForbiddenName(policy: HeaderPolicy, siteOrigin: string, targetUrl: string, headers: seq<Header>, i: nat)
    requires i < |Scrubbed(policy, siteOrigin, targetUrl, headers)|
    ensures forall k :: 0 <= k < |STRIP_NAMES| ==>
      ToLower(Scrubbed(policy, siteOrigin, targetUrl, headers)[i].name) != STRIP_NAMES[k]
  {
    OnlyPolicyValues(policy, siteOrigin, targetUrl, headers, i);
  }

  /** The value the policy has for a managed name; none if the header is not to be sent. */
  function PolicyValue(policy: HeaderPolicy, siteOrigin: string, targetUrl: string, lower: string): Option<string> {
    if lower == "user-agent" then Some(policy.userAgent)
    else if lower == "accept-language" then Some(policy.acceptLanguage)
    else if lower == "accept-encoding" then Some(policy.acceptEncoding)
    else if lower == "dnt" then if policy.sendDnt then Some("1") else None
    else if lower == "sec-gpc" then if policy.sendSecGpc then Some("1") else None
    else if lower == "referer" then ComputeReferer(policy.referer, siteOrigin, targetUrl)
    else None
  }

  lemma ManagedValue(policy: HeaderPolicy, siteOrigin: string, targetUrl: string, i: nat)
    requires i < |Managed(policy, siteOrigin, targetUrl)|
    ensures var h := Managed(policy, siteOrigin, targetUrl)[i];
      PolicyValue(policy, siteOrigin, targetUrl, ToLower(h.name)) == Some(h.value)
  {
    ManagedLowerNames();
  }

  /** A managed name that leaves, in any casing, has the value the policy has for that name and no other. */
  lemma ManagedValuesLeave(policy: HeaderPolicy, siteOrigin: string, targetUrl: string, headers: seq<Header>, i: nat)
    requires i < |Scrubbed(policy, siteOrigin, targetUrl, headers)|
    ensures var h := Scrubbed(policy, siteOrigin, targetUrl, headers)[i];
      Overrides(h.name) ==> PolicyValue(policy, siteOrigin, targetUrl, ToLower(h.name)) == Some(h.value)
  {
    OnlyPolicyValues(policy, siteOrigin, targetUrl, headers, i);
    if i < |Managed(policy, siteOrigin, targetUrl)| {
      ManagedValue(policy, siteOrigin, targetUrl, i);
    }
  }

  /** The privacy signals and the Referer leave exactly when the policy has them. */
  lemma SignalsLeaveIff(policy: HeaderPolicy, siteOrigin: string, targetUrl: string)
    ensures var m := Managed(policy, siteOrigin, targetUrl);
      && |m| >= 3 && m[..3] == [Header("User-Agent", policy.userAgent), Header("Accept-Language", policy.acceptLanguage),
                                Header("Accept-Encoding", policy.acceptEncoding)]
      && (Header("DNT", "1") in m <==> policy.sendDnt)
      && (Header("Sec-GPC", "1") in m <==> policy.sendSecGpc)
      && forall value :: Header("Referer", value) in m <==> ComputeReferer(policy.referer, siteOrigin, targetUrl) == Some(value)
  {
    var m := Managed(policy, siteOrigin, targetUrl);
    var referer := ComputeReferer(policy.referer, siteOrigin, targetUrl);
    assert |"DNT"| == 3 && |"Sec-GPC"| == 7 && |"Referer"| == 7 && "Sec-GPC"[0] != "Referer"[0];
    assert |"User-Agent"| == 10 && |"Accept-Language"| == 15 && |"Accept-Encoding"| == 15;
    assert policy.sendDnt ==> m[3] == Header("DNT", "1");
    assert policy.sendSecGpc ==> m[if policy.sendDnt then 4 else 3] == Header("Sec-GPC", "1");
    assert referer.Some? ==> m[|m| - 1] == Header("Referer", referer.value);
  }

  /** The two modes look alike from outside, but for the Referer. */
  lemma ModesDifferInRefererOnly()
    ensures PolicyFor(Strict) == PolicyFor(Standard).(mode := Strict, referer := NoReferrer)
    ensures PolicyFor(Standard).referer == StrictOriginWhenCrossOrigin
    ensures PolicyFor(Standard).sendDnt && PolicyFor(Standard).sendSecGpc
  {
  }

  /** The default Accept is added if and only if no header of the renderer's is named so, in any casing. */
  lemma DefaultAcceptIff(policy: HeaderPolicy, headers: seq<Header>)
    ensures DefaultAccept(policy, headers)
         == if exists i :: 0 <= i < |headers| && ToLower(headers[i].name) == "accept" then []
            else [Header("Accept", policy.acceptDefault)]
  {
  }
}
