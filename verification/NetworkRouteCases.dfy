/** Two requests that show what the route does not promise. */
module NetworkRouteCases {
  import opened Common
  import opened Text
  import opened UrlHost
  import opened UrlStrip
  import opened PartitionLruModel
  import opened BlocklistModel
  import opened NetworkRoute
  import B = BlocklistTree

  const FRONT := "https://h/"

  /** Everything behind the host: the parameter `a` and a fragment. */
  function Tail(fragment: string): string {
    "?" + ("a" + fragment)
  }

  function RequestTo(fragment: string, key: PartitionKey): Request {
    Request("", Uuid(0), Uuid(0), key, Standard, FRONT + Tail(fragment), "GET", [], [], false)
  }

  lemma FrontHost()
    ensures Find(FRONT, "://").Some? && ParseHost(FRONT) == Some("h")
  {
    var u := Url("https", None, Name("h", ""), "/");
    assert u.authority.Render() == "h";
    assert u.Render() == FRONT by {
      assert u.AfterScheme() == "h/";
    }
    HostRoundTrip(u);
  }

  lemma FrontPrefix(tail: string)
    ensures HasPrefixIgnoringCase(FRONT + tail, "https://")
  {
    assert (FRONT + tail)[..8] == FRONT[..8] == "https://";
    assert ToLower("https://") == "https://";
  }

  lemma HostOfRequest(fragment: string, key: PartitionKey)
    ensures ParseHost(RequestTo(fragment, key).url) == Some("h")
    ensures EnforceHttpsOnly(RequestTo(fragment, key).url, false).Success?
  {
    FrontHost();
    TailIrrelevant(FRONT, Tail(fragment));
    FrontPrefix(Tail(fragment));
  }

  /** Such a request leaves exactly when no rule blocks its host. */
  lemma RequestLeaves(config: Config, fragment: string, key: PartitionKey)
    requires config.Key(RequestTo(fragment, key)) == key
    ensures var r := RouteResult(config, RequestTo(fragment, key), UNSET);
      r == if config.BlockedAs("h").None? then Success(Routed(config, RequestTo(fragment, key))) else Failure(Blocked)
  {
    HostOfRequest(fragment, key);
  }

  /** With a long fragment a listed parameter leaves the broker, though no fragment is exposed. */
  lemma OversizedLeaves(config: Config, fragment: string, key: PartitionKey)
    requires fragment != "" && fragment[0] == '#' && |fragment| >= MAX_STRIPPABLE_URL_LEN
    requires config.rules == [] && config.stripNames == {"a"} && config.Key(RequestTo(fragment, key)) == key
    ensures var req := RequestTo(fragment, key);
      var r := RouteResult(config, req, UNSET);
      && r.Success? && AnyListed(Parameters(r.value.finalUrl), config.stripNames)
      && !FragmentExposed(req.url, config.stripNames)
  {
    RequestLeaves(config, fragment, key);
    OversizedUrl(fragment);
    var routed := Routed(config, RequestTo(fragment, key));
    assert routed.finalUrl == Stripped(FRONT + Tail(fragment), {"a"});
  }

  lemma OversizedUrl(fragment: string)
    requires fragment != "" && fragment[0] == '#' && |fragment| >= MAX_STRIPPABLE_URL_LEN
    ensures var url := FRONT + Tail(fragment);
      && AnyListed(Parameters(Stripped(url, {"a"})), {"a"})
      && !FragmentExposed(url, {"a"})
  {
    FrontFree();
    OversizedKeepsListed(FRONT, fragment);
  }

  lemma FrontFree()
    ensures Free(FRONT, {'?'})
  {
  }

  lemma HostLabels()
    ensures B.Labels(ToLower("h")) == ["h"]
  {
    IndexOfAnyIs("h", {'.'}, 1);
    assert ToLower("h") == "h" && Split("h", '.') == ["h"];
    assert B.Reverse(["h"]) == ["h"] && B.NonEmpty(["h"]) == ["h"];
  }

  lemma ListedTail()
    ensures Strippable(FRONT + Tail(""), {"a"})
  {
    FrontFree();
    OneListedPart();
    PutTogether(FRONT, "a", "");
    BytesOfPieces(FRONT, "a", "");
    BytesBound(FRONT);
    BytesBound("a");
  }

  lemma NothingListed(url: string)
    ensures Stripped(url, {}) == url
  {
    NothingToStrip(url, {});
  }

  /** A manifest that starts to block the host and to strip the parameter. */
  predicate BlocksAndStrips(m: Manifest) {
    m.hostRules == [B.HostRule("h", B.Tracker)] && m.urlParamRules == [ParamRule("a")]
  }

  lemma RenewedBlocks(m: Manifest, config: Config)
    requires BlocksAndStrips(m) && config.rules == m.hostRules
    ensures config.BlockedAs("h") == Some(B.Tracker)
    ensures SnapshotOf(m).stripNames == {"a"}
  {
    HostLabels();
    B.RuleIgnoresCase([], "h", B.Tracker, "h");
    assert [] + [B.HostRule("h", B.Tracker)] == m.hostRules;
    assert m.urlParamRules[0].name == ToLower("a") == "a";
  }

  /**
   * A swap between the two reads of the blocklist can let a request out, stripped, where the old
   * manifest leaves it unstripped and the new one blocks it.
   */
  lemma TornSnapshot(config: Config, m: Manifest, key: PartitionKey)
    requires config.rules == [] && config.stripNames == {} && config.Key(RequestTo("", key)) == key
    requires BlocksAndStrips(m)
    ensures var req := RequestTo("", key);
      var renewed := config.(rules := m.hostRules, stripNames := SnapshotOf(m).stripNames);
      var torn := RouteResult(Torn(config, Some(m)), req, UNSET);
      && torn.Success?
      && torn != RouteResult(config, req, UNSET)
      && torn != RouteResult(renewed, req, UNSET)
  {
    var req := RequestTo("", key);
    var renewed := config.(rules := m.hostRules, stripNames := SnapshotOf(m).stripNames);
    RequestLeaves(config, "", key);
    RequestLeaves(renewed, "", key);
    RequestLeaves(Torn(config, Some(m)), "", key);
    RenewedBlocks(m, renewed);
    ListedTail();
    StripChangesIff(req.url, {"a"});
    NothingListed(req.url);
  }
}
