/** The request route of the network broker, from partition authorisation to egress state. */
module NetworkRoute {
  import opened Common
  import opened Text
  import opened UrlHost
  import opened UrlStrip
  import opened PartitionLruModel
  import opened BlocklistModel
  import B = BlocklistTree
  import H = HeaderScrub

  const MAX_PARTITIONS := 16

  datatype NetworkError = PartitionMismatch | Cancelled | HttpsOnlyDowngrade | InvalidUrl | Blocked | Misconfigured | SandboxRefused

  datatype Request = Request(
    siteOrigin: string,
    identityProfileId: Uuid,
    contextId: Uuid,
    declaredKey: PartitionKey,
    mode: Mode,
    url: string,
    httpMethod: string,
    headers: seq<H.Header>,
    body: seq<bv8>,
    downgradeApproved: bool)

  datatype RoutedRequest = RoutedRequest(
    partitionKey: PartitionKey,
    mode: Mode,
    finalUrl: string,
    httpMethod: string,
    headers: seq<H.Header>,
    body: seq<bv8>)

  /** The four readings `route` takes of the cancellation flag, which another task may set meanwhile. */
  datatype CancelReadings = CancelReadings(afterAuthorize: bool, afterHttps: bool, afterStrip: bool, afterScrub: bool) {
    /** The flag is never cleared. */
    predicate Monotone() {
      (afterAuthorize ==> afterHttps) && (afterHttps ==> afterStrip) && (afterStrip ==> afterScrub)
    }
  }

  predicate HasPrefixIgnoringCase(s: string, lower: string) {
    |s| >= |lower| && ToLower(s[..|lower|]) == lower
  }

  const UNSET := CancelReadings(false, false, false, false)

  function EnforceHttpsOnly(url: string, downgradeApproved: bool): Result<string, NetworkError> {
    if HasPrefixIgnoringCase(url, "https://") then Success(url)
    else if HasPrefixIgnoringCase(url, "http://") then
      if downgradeApproved then Success(url) else Failure(HttpsOnlyDowngrade)
    else Failure(InvalidUrl)
  }

  /** What the broker is configured with; `derive` stands for the hash that derives partition keys. */
  datatype Config = Config(
    derive: (string, Uuid, Uuid) -> PartitionKey,
    rules: seq<B.Rule>,
    stripNames: set<string>,
    standardPolicy: H.HeaderPolicy,
    strictPolicy: H.HeaderPolicy)
  {
    function Policy(mode: Mode): H.HeaderPolicy {
      if mode == Standard then standardPolicy else strictPolicy
    }

    function Key(req: Request): PartitionKey {
      derive(req.siteOrigin, req.identityProfileId, req.contextId)
    }

    function BlockedAs(host: string): Option<B.BlockKind> {
      B.DeepestMatch(B.FromRules(rules), B.Labels(ToLower(host)))
    }
  }

  function Routed(config: Config, req: Request): RoutedRequest {
    var finalUrl := Stripped(req.url, config.stripNames);
    RoutedRequest(config.Key(req), req.mode, finalUrl, req.httpMethod,
                  H.Scrubbed(config.Policy(req.mode), req.siteOrigin, finalUrl, req.headers), req.body)
  }

  /** The checks up to the blocklist match; the first one that fails decides. */
  function MatchResult(config: Config, req: Request, cancel: CancelReadings): Result<(), NetworkError> {
    if config.Key(req) != req.declaredKey then Failure(PartitionMismatch)
    else if cancel.afterAuthorize then Failure(Cancelled)
    else if EnforceHttpsOnly(req.url, req.downgradeApproved).Failure? then
      Failure(EnforceHttpsOnly(req.url, req.downgradeApproved).error)
    else if cancel.afterHttps then Failure(Cancelled)
    else if ParseHost(req.url).None? then Failure(InvalidUrl)
    else if config.BlockedAs(ParseHost(req.url).value).Some? then Failure(Blocked)
    else Success(())
  }

  /** The answer of `route`. */
  function RouteResult(config: Config, req: Request, cancel: CancelReadings): Result<RoutedRequest, NetworkError> {
    var matched := MatchResult(config, req, cancel);
    if matched.Failure? then Failure(matched.error)
    else if cancel.afterStrip || cancel.afterScrub then Failure(Cancelled)
    else Success(Routed(config, req))
  }

  datatype SandboxClass = Renderer | Network | Storage | Filesystem

  class NetworkCoordinator {
    const derive: (string, Uuid, Uuid) -> PartitionKey
    const egress: PartitionLru<()>
    var blocklist: Blocklist
    var standardPolicy: H.HeaderPolicy
    var strictPolicy: H.HeaderPolicy

    ghost predicate Valid()
      reads this, egress, blocklist
    {
      Inv(egress.View(), egress.cap) && egress.cap == MAX_PARTITIONS && blocklist.Valid()
    }

    /** What a route reads when nothing changes the blocklist under it. */
    ghost function Settings(): Config
      reads this, blocklist
    {
      Config(derive, blocklist.rules, blocklist.stripNames, standardPolicy, strictPolicy)
    }

    constructor (derive: (string, Uuid, Uuid) -> PartitionKey)
      ensures Valid() && fresh(egress) && fresh(blocklist)
      ensures egress.View() == Empty() && blocklist.Live() == EMPTY_SNAPSHOT && blocklist.events == []
      ensures Settings() == Config(derive, [], {}, H.PolicyFor(Standard), H.PolicyFor(Strict))
    {
      this.derive := derive;
      egress := new PartitionLru<()>(MAX_PARTITIONS, ());
      blocklist := new Blocklist();
      standardPolicy, strictPolicy := H.PolicyFor(Standard), H.PolicyFor(Strict);
    }

    /** `bootstrap`; `applied` stands for the outcome of applying the sandbox profile. */
    static method Bootstrap(sandbox: SandboxClass, applied: Result<(), NetworkError>,
                            derive: (string, Uuid, Uuid) -> PartitionKey)
      returns (r: Result<NetworkCoordinator, NetworkError>)
      ensures r.Success? <==> sandbox == Network && applied.Success?
      ensures r.Failure? ==> r.error == if sandbox != Network then Misconfigured else applied.error
      ensures r.Success? ==> fresh(r.value) && r.value.Valid() && r.value.blocklist.Live() == EMPTY_SNAPSHOT
    {
      if sandbox != Network {
        return Failure(Misconfigured);
      }
      if applied.Failure? {
        return Failure(applied.error);
      }
      var coordinator := new NetworkCoordinator(derive);
      r := Success(coordinator);
    }

    method SetBlocklist(shared: Blocklist)
      requires Valid() && shared.Valid()
      modifies this`blocklist
      ensures Valid() && blocklist == shared
    {
      blocklist := shared;
    }

    /** The policy replaces the snapshot of its own mode. */
    method SetHeaderPolicy(policy: H.HeaderPolicy)
      requires Valid()
      modifies this`standardPolicy, this`strictPolicy
      ensures Valid()
      ensures Settings().Policy(policy.mode) == policy
      ensures forall mode :: mode != policy.mode ==> Settings().Policy(mode) == old(Settings()).Policy(mode)
    {
      if policy.mode == Standard {
        standardPolicy := policy;
      } else {
        strictPolicy := policy;
      }
    }

    method Authorize(req: Request) returns (r: Result<PartitionKey, NetworkError>)
      ensures r == if derive(req.siteOrigin, req.identityProfileId, req.contextId) == req.declaredKey
                   then Success(req.declaredKey) else Failure(PartitionMismatch)
    {
      var expected := derive(req.siteOrigin, req.identityProfileId, req.contextId);
      r := if expected == req.declaredKey then Success(expected) else Failure(PartitionMismatch);
    }

    /**
     * `meanwhile` is the manifest the update scheduler swaps in, if it does, between the two reads
     * a route takes of the shared blocklist.
     */
    method Route(req: Request, cancel: CancelReadings, meanwhile: Option<Manifest>)
      returns (r: Result<RoutedRequest, NetworkError>)
      requires Valid()
      modifies egress, blocklist
      ensures Valid()
      ensures r == RouteResult(Torn(old(Settings()), meanwhile), req, cancel)
      ensures r.Failure? ==> egress.View() == old(egress.View())
      ensures r.Success? ==>
        egress.View() == GetOrInsert(old(egress.View()), egress.cap, egress.default, old(Settings()).Key(req))
      ensures blocklist.events == old(blocklist.events)
                                  + EventsOf(old(Settings()), req, MatchResult(old(Settings()), req, cancel))
      ensures blocklist.Live() == if meanwhile.Some? && MatchResult(old(Settings()), req, cancel).Success?
                                  then SnapshotOf(meanwhile.value) else old(blocklist.Live())
    {
      ghost var config := Settings();
      var matched := Match(req, cancel);
      if matched.Failure? {
        return Failure(matched.error);
      }
      if meanwhile.Some? {
        var _ := blocklist.Swap(meanwhile.value);
      }
      assert blocklist.stripNames == Torn(config, meanwhile).stripNames;
      var stripped := StripTrackingParams(req.url, blocklist.stripNames);
      if cancel.afterStrip {
        return Failure(Cancelled);
      }
      var policy := if req.mode == Standard then standardPolicy else strictPolicy;
      var headers := H.Scrub(policy, req.siteOrigin, stripped, req.headers);
      if cancel.afterScrub {
        return Failure(Cancelled);
      }
      var _ := egress.GetOrInsertDefault(req.declaredKey);
      r := Success(RoutedRequest(req.declaredKey, req.mode, stripped, req.httpMethod, headers, req.body));
    }

    /** The first half of `route`, up to the blocklist match and its event. */
    method Match(req: Request, cancel: CancelReadings) returns (r: Result<(), NetworkError>)
      requires Valid()
      modifies blocklist`events
      ensures r == MatchResult(Settings(), req, cancel)
      ensures blocklist.events == old(blocklist.events) + EventsOf(Settings(), req, r)
    {
      var canonical := Authorize(req);
      if canonical.Failure? {
        return Failure(canonical.error);
      }
      if cancel.afterAuthorize {
        return Failure(Cancelled);
      }
      var finalUrl := EnforceHttpsOnly(req.url, req.downgradeApproved);
      if finalUrl.Failure? {
        return Failure(finalUrl.error);
      }
      if cancel.afterHttps {
        return Failure(Cancelled);
      }
      var host := ParseHost(finalUrl.value);
      if host.None? {
        return Failure(InvalidUrl);
      }
      var kind := blocklist.MatchHost(host.value);
      if kind.Some? {
        blocklist.OnBlock(BlockedEvent(kind.value, canonical.value));
        return Failure(Blocked);
      }
      r := Success(());
    }

    method DropPartition(key: PartitionKey)
      requires Valid()
      modifies egress
      ensures Valid() && egress.View() == Removed(old(egress.View()), key)
    {
      var _ := egress.Remove(key);
    }
  }

  /** A blocked request is reported once, with its kind and its own partition; nothing else is. */
  function EventsOf(config: Config, req: Request, r: Result<(), NetworkError>): seq<BlockedEvent> {
    if r != Failure(Blocked) || ParseHost(req.url).None? then []
    else match config.BlockedAs(ParseHost(req.url).value)
      case None => []
      case Some(kind) => [BlockedEvent(kind, req.declaredKey)]
  }

  /** The rules of one snapshot with the strip list of a later one. */
  function Torn(config: Config, meanwhile: Option<Manifest>): Config {
    if meanwhile.None? then config else config.(stripNames := SnapshotOf(meanwhile.value).stripNames)
  }

  // ------------------------------------------------------------- results

  /** A scheme is recognised character by character, casing aside. */
  lemma PrefixIff(s: string, lower: string)
    ensures HasPrefixIgnoringCase(s, lower)
       <==> |s| >= |lower| && forall i :: 0 <= i < |lower| ==> LowerChar(s[i]) == lower[i]
  {
    if |s| >= |lower| {
      assert forall i :: 0 <= i < |lower| ==> s[..|lower|][i] == s[i];
      if forall i :: 0 <= i < |lower| ==> LowerChar(s[i]) == lower[i] {
        assert ToLower(s[..|lower|]) == lower;
      }
      if HasPrefixIgnoringCase(s, lower) {
        assert forall i :: 0 <= i < |lower| ==> ToLower(s[..|lower|])[i] == lower[i];
      }
    }
  }

  lemma HttpUrlSchemeFirst(url: string)
    requires HasPrefixIgnoringCase(url, "https://") || HasPrefixIgnoringCase(url, "http://")
    ensures SchemeFirst(url)
  {
    var n := if HasPrefixIgnoringCase(url, "https://") then 5 else 4;
    var lower := if n == 5 then "https://" else "http://";
    assert forall i :: 0 <= i < n + 3 ==> LowerChar(url[..n + 3][i]) == lower[i];
    assert forall i :: 0 <= i < n + 3 ==> LowerChar(url[i]) == lower[i];
    forall j | 0 <= j < n ensures !OccursAt(url, "://", j) {
      if OccursAt(url, "://", j) {
        OccursStarts(url, "://", j);
      }
    }
    assert OccursAt(url, "://", n);
    FindIff(url, "://", n);
  }

  /** Stripping keeps an allowed scheme allowed. */
  lemma StripKeepsScheme(url: string, names: set<string>, lower: string)
    requires HasPrefixIgnoringCase(url, lower) && Free(lower, {'?'})
    ensures HasPrefixIgnoringCase(Stripped(url, names), lower)
  {
    if Strippable(url, names) {
      var q := IndexOfAny(url, {'?'});
      IndexStops(url, {'?'});
      assert forall i :: 0 <= i < |lower| ==> LowerChar(url[..|lower|][i]) == lower[i];
      assert forall i :: 0 <= i < |lower| ==> LowerChar(url[i]) == lower[i];
      assert Stripped(url, names)[..|lower|] == Prefix(url)[..|lower|] == url[..|lower|];
    }
  }

  /** What a successful route guarantees about the request that leaves. */
  ghost predicate Safe(config: Config, req: Request, r: RoutedRequest) {
    && r.partitionKey == config.Key(req) == req.declaredKey
    && (HasPrefixIgnoringCase(r.finalUrl, "https://")
        || (HasPrefixIgnoringCase(r.finalUrl, "http://") && req.downgradeApproved))
    && ParseHost(r.finalUrl).Some?
    && (forall kind :: !B.Blocks(config.rules, B.Labels(ToLower(ParseHost(r.finalUrl).value)), kind))
    && (AnyListed(Parameters(r.finalUrl), config.stripNames) <==>
          FragmentExposed(req.url, config.stripNames) || Oversized(req.url, config.stripNames))
    && r.finalUrl == Stripped(req.url, config.stripNames)
    && r.headers == H.Scrubbed(config.Policy(req.mode), req.siteOrigin, r.finalUrl, req.headers)
    && (forall i, k :: 0 <= i < |r.headers| && 0 <= k < |H.STRIP_NAMES| ==> ToLower(r.headers[i].name) != H.STRIP_NAMES[k])
    && r.httpMethod == req.httpMethod && r.body == req.body && r.mode == req.mode
  }

  lemma SchemeAllowed(config: Config, req: Request)
    requires EnforceHttpsOnly(req.url, req.downgradeApproved).Success?
    ensures var finalUrl := Routed(config, req).finalUrl;
      || HasPrefixIgnoringCase(finalUrl, "https://")
      || (HasPrefixIgnoringCase(finalUrl, "http://") && req.downgradeApproved)
  {
    if HasPrefixIgnoringCase(req.url, "https://") {
      StripKeepsScheme(req.url, config.stripNames, "https://");
    } else {
      StripKeepsScheme(req.url, config.stripNames, "http://");
    }
  }

  lemma HostUnblocked(config: Config, req: Request)
    requires EnforceHttpsOnly(req.url, req.downgradeApproved).Success?
    requires ParseHost(req.url).Some? && config.BlockedAs(ParseHost(req.url).value).None?
    ensures var host := ParseHost(Routed(config, req).finalUrl);
      host.Some? && forall kind :: !B.Blocks(config.rules, B.Labels(ToLower(host.value)), kind)
  {
    HttpUrlSchemeFirst(req.url);
    StripKeepsHost(req.url, config.stripNames);
    B.TreeRefinesRules(config.rules, ParseHost(req.url).value);
  }

  lemma HeadersScrubbed(config: Config, req: Request)
    ensures var r := Routed(config, req);
      forall i, k :: 0 <= i < |r.headers| && 0 <= k < |H.STRIP_NAMES| ==> ToLower(r.headers[i].name) != H.STRIP_NAMES[k]
  {
    var r := Routed(config, req);
    forall i | 0 <= i < |r.headers|
      ensures forall k :: 0 <= k < |H.STRIP_NAMES| ==> ToLower(r.headers[i].name) != H.STRIP_NAMES[k]
    {
      H.NoForbiddenName(config.Policy(req.mode), req.siteOrigin, r.finalUrl, req.headers, i);
    }
  }

  /**
   * End to end: a request that leaves the broker carries its own partition key, uses https unless the
   * user approved otherwise, goes to a host no rule blocks, and takes along no forbidden header, and a
   * listed query parameter exactly in the two cases that get past the stripper. Checking the host
   * before the URL is stripped is sound because stripping cannot change it.
   */
  lemma RouteIsSafe(config: Config, req: Request, cancel: CancelReadings)
    ensures var r := RouteResult(config, req, cancel); r.Success? ==> Safe(config, req, r.value)
  {
    AllChecksPassed(config, req, cancel);
    if RouteResult(config, req, cancel).Success? {
      SchemeAllowed(config, req);
      HostUnblocked(config, req);
      HeadersScrubbed(config, req);
      ListedSurvivesIff(req.url, config.stripNames);
    }
  }

  lemma AllChecksPassed(config: Config, req: Request, cancel: CancelReadings)
    ensures RouteResult(config, req, cancel).Success? ==>
      && RouteResult(config, req, cancel) == Success(Routed(config, req))
      && config.Key(req) == req.declaredKey
      && EnforceHttpsOnly(req.url, req.downgradeApproved).Success?
      && ParseHost(req.url).Some?
      && config.BlockedAs(ParseHost(req.url).value).None?
  {
  }

  /**
   * Completeness: with the flag never set, a request is refused exactly for a wrong key, a scheme
   * that is not allowed, a URL without a host, or a blocked host.
   */
  lemma RefusedIff(config: Config, req: Request)
    ensures RouteResult(config, req, UNSET).Failure?
       <==> || config.Key(req) != req.declaredKey
            || !(HasPrefixIgnoringCase(req.url, "https://")
                 || (HasPrefixIgnoringCase(req.url, "http://") && req.downgradeApproved))
            || ParseHost(req.url).None?
            || exists kind :: B.Blocks(config.rules, B.Labels(ToLower(ParseHost(req.url).value)), kind)
  {
    if ParseHost(req.url).Some? {
      B.TreeRefinesRules(config.rules, ParseHost(req.url).value);
      assert config.BlockedAs(ParseHost(req.url).value).Some? ==>
        B.Blocks(config.rules, B.Labels(ToLower(ParseHost(req.url).value)), config.BlockedAs(ParseHost(req.url).value).value);
    }
    HttpsIsNotHttp(req.url);
  }

  /** The scheme check passes. */
  predicate SchemeAccepted(req: Request) {
    HasPrefixIgnoringCase(req.url, "https://") || (HasPrefixIgnoringCase(req.url, "http://") && req.downgradeApproved)
  }

  ghost predicate HostBlocked(config: Config, req: Request) {
    ParseHost(req.url).Some?
    && exists kind :: B.Blocks(config.rules, B.Labels(ToLower(ParseHost(req.url).value)), kind)
  }

  /** Which error a refused request is answered with, for every reading of the cancellation flag. */
  lemma RefusedFor(config: Config, req: Request, cancel: CancelReadings)
    ensures var r, known := RouteResult(config, req, cancel), config.Key(req) == req.declaredKey;
      && (r == Failure(PartitionMismatch) <==> !known)
      && (r == Failure(HttpsOnlyDowngrade) <==>
            known && !cancel.afterAuthorize && HasPrefixIgnoringCase(req.url, "http://") && !req.downgradeApproved)
      && (r == Failure(InvalidUrl) <==>
            && known && !cancel.afterAuthorize
            && (if SchemeAccepted(req) then !cancel.afterHttps && ParseHost(req.url).None?
                else !HasPrefixIgnoringCase(req.url, "http://")))
      && (r == Failure(Blocked) <==>
            known && !cancel.afterAuthorize && SchemeAccepted(req) && !cancel.afterHttps && HostBlocked(config, req))
  {
    HttpsIsNotHttp(req.url);
    BlockedAsIff(config, req);
  }

  lemma BlockedAsIff(config: Config, req: Request)
    ensures ParseHost(req.url).Some? ==> (config.BlockedAs(ParseHost(req.url).value).Some? <==> HostBlocked(config, req))
    ensures ParseHost(req.url).Some? ==> forall kind ::
      config.BlockedAs(ParseHost(req.url).value) == Some(kind)
      <==> B.Blocks(config.rules, B.Labels(ToLower(ParseHost(req.url).value)), kind)
  {
    if ParseHost(req.url).Some? {
      B.TreeRefinesRules(config.rules, ParseHost(req.url).value);
      var found := config.BlockedAs(ParseHost(req.url).value);
      assert found.Some? ==> B.Blocks(config.rules, B.Labels(ToLower(ParseHost(req.url).value)), found.value);
    }
  }

  /** What is reported: one event, of the kind the rules say and for the request's own partition, iff blocked. */
  lemma ReportedIff(config: Config, req: Request, cancel: CancelReadings, event: BlockedEvent)
    ensures var reported := EventsOf(config, req, MatchResult(config, req, cancel));
      && |reported| <= 1
      && (reported == [event] <==>
            && RouteResult(config, req, cancel) == Failure(Blocked) && event.partitionKey == req.declaredKey
            && ParseHost(req.url).Some?
            && B.Blocks(config.rules, B.Labels(ToLower(ParseHost(req.url).value)), event.kind))
  {
    BlockedAsIff(config, req);
  }

  /**
   * With the default policies a Referer leaves with a Standard request to an https URL from a known origin,
   * and with no other: never with a Strict one, whatever the renderer sent.
   */
  lemma RefererLeavesIff(config: Config, req: Request)
    requires config.standardPolicy == H.PolicyFor(Standard) && config.strictPolicy == H.PolicyFor(Strict)
    ensures var r := Routed(config, req);
      (exists i :: 0 <= i < |r.headers| && ToLower(r.headers[i].name) == "referer")
      <==> req.mode == Standard && req.siteOrigin != "" && !HasPrefixIgnoringCase(r.finalUrl, "http://")
  {
    var r, policy := Routed(config, req), config.Policy(req.mode);
    var m := H.Managed(policy, req.siteOrigin, r.finalUrl);
    H.SignalsLeaveIff(policy, req.siteOrigin, r.finalUrl);
    H.ManagedLowerNames();
    var referer := H.ComputeReferer(policy.referer, req.siteOrigin, r.finalUrl);
    forall i | 0 <= i < |r.headers| && ToLower(r.headers[i].name) == "referer" ensures referer.Some? {
      H.ManagedValuesLeave(policy, req.siteOrigin, r.finalUrl, req.headers, i);
      assert H.OVERRIDE_NAMES[3] == "referer";
    }
    if referer.Some? {
      var i :| 0 <= i < |m| && m[i] == H.Header("Referer", referer.value);
      assert r.headers[i] == m[i];
    }
  }

  lemma HttpsIsNotHttp(url: string)
    ensures !(HasPrefixIgnoringCase(url, "https://") && HasPrefixIgnoringCase(url, "http://"))
  {
    assert HasPrefixIgnoringCase(url, "https://") ==> LowerChar(url[..8][4]) == "https://"[4];
    assert HasPrefixIgnoringCase(url, "http://") ==> LowerChar(url[..7][4]) == "http://"[4];
  }

  /** Cancelling is sticky: once the flag has been seen set, or is set before the last check, nothing leaves. */
  lemma CancelledNeverLeaves(config: Config, req: Request, cancel: CancelReadings)
    requires cancel.Monotone()
    ensures RouteResult(config, req, cancel).Success?
       <==> !cancel.afterScrub && RouteResult(config, req, UNSET).Success?
  {
  }

  // ------------------------------------------------- one snapshot or two

  /**
   * A manifest is meant to come into force as a whole. A route that a swap overtakes uses the old
   * rules and the new strip list; its answer is one that the old or the new manifest alone would have
   * given exactly when both strip the URL alike or the new rules do not block its host.
   */
  lemma OneSnapshotIff(config: Config, m: Manifest, req: Request, cancel: CancelReadings)
    ensures var torn := RouteResult(Torn(config, Some(m)), req, cancel);
      var renewed := config.(rules := m.hostRules, stripNames := SnapshotOf(m).stripNames);
      torn.Failure? ||
      (&& ParseHost(req.url).Some?
       && (torn == RouteResult(config, req, cancel) || torn == RouteResult(renewed, req, cancel)
           <==> Stripped(req.url, config.stripNames) == Stripped(req.url, renewed.stripNames)
                || renewed.BlockedAs(ParseHost(req.url).value).None?))
  {
    AllChecksPassed(Torn(config, Some(m)), req, cancel);
  }

}
