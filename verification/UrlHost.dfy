/** Host extraction from a URL, and the grammar it is measured against. */
module UrlHost {
  import opened Common
  import opened Text

  /** The characters that end the authority component. */
  const DELIMITERS: set<char> := {'/', '?', '#'}

  /** The host inside an authority component from which the userinfo has been taken. */
  function HostOf(authority: string): Option<string> {
    if authority == "" then None
    else if authority[0] == '[' then
      var inside := authority[1..];
      var close := IndexOfAny(inside, {']'});
      if close == |inside| || close == 0 then None else Some(inside[..close])
    else
      var host := authority[..IndexOfAny(authority, {':'})];
      if host == "" then None else Some(host)
  }

  function AfterUserinfo(s: string): string {
    var at := IndexOfAny(s, {'@'});
    if at < |s| && Free(s[..at], DELIMITERS) then s[at + 1..] else s
  }

  function AuthorityOf(s: string): string {
    s[..IndexOfAny(s, DELIMITERS)]
  }

  function HostAfterScheme(s: string): Option<string> {
    HostOf(AuthorityOf(AfterUserinfo(s)))
  }

  function ParseHost(url: string): Option<string> {
    match Find(url, "://")
    case None => None
    case Some(i) => HostAfterScheme(url[i + 3..])
  }

  // ------------------------------------------------------------- grammar

  /** A host and what follows it inside the authority: a port, or text the parser ignores. */
  datatype Authority =
    | Name(host: string, rest: string)
    | Literal(host: string, rest: string)
  {
    function Render(): string {
      if Name? then host + rest else "[" + host + "]" + rest
    }

    predicate WellFormed() {
      && host != ""
      && Free(Render(), DELIMITERS)
      && if Name? then host[0] != '[' && Free(host, {':'}) && (rest == "" || rest[0] == ':') else Free(host, {']'})
    }
  }

  datatype Url = Url(scheme: string, userinfo: Option<string>, authority: Authority, tail: string) {
    function AfterScheme(): string {
      (if userinfo.Some? then userinfo.value + "@" else "") + authority.Render() + tail
    }

    function Render(): string {
      scheme + "://" + AfterScheme()
    }

    predicate WellFormed() {
      && Find(scheme + "://", "://") == Some(|scheme|)
      && (match userinfo
          case Some(u) => Free(u, {'@'} + DELIMITERS)
          case None => Free(authority.Render(), {'@'}))
      && authority.WellFormed()
      && StartsTail(tail)
    }
  }

  predicate StartsTail(tail: string) {
    tail == "" || tail[0] == '/' || tail[0] == '?' || tail[0] == '#'
  }

  /** The host of an authority is exactly what the grammar says it is. */
  lemma HostOfIff(authority: string, host: string)
    requires Free(authority, DELIMITERS)
    ensures HostOf(authority) == Some(host)
       <==> exists a: Authority :: a.WellFormed() && a.Render() == authority && a.host == host
  {
    if HostOf(authority) == Some(host) {
      if authority[0] == '[' {
        var inside := authority[1..];
        var close := IndexOfAny(inside, {']'});
        IndexStops(inside, {']'});
        var a := Literal(host, inside[close + 1..]);
        assert a.Render() == authority;
        assert a.WellFormed();
      } else {
        IndexStops(authority, {':'});
        var a := Name(host, authority[|host|..]);
        assert a.Render() == authority;
        assert host[0] == authority[0];
        assert a.WellFormed();
      }
    }
    forall a: Authority | a.WellFormed() && a.Render() == authority && a.host == host
      ensures HostOf(authority) == Some(host)
    {
      RenderedHost(a);
    }
  }

  lemma RenderedHost(a: Authority)
    requires a.WellFormed()
    ensures HostOf(a.Render()) == Some(a.host)
  {
    var s := a.Render();
    if a.Name? {
      assert s[0] == a.host[0];
      assert s[..|a.host|] == a.host;
      IndexOfAnyIs(s, {':'}, |a.host|);
    } else {
      var inside := s[1..];
      assert inside == a.host + "]" + a.rest;
      assert inside[..|a.host|] == a.host;
      IndexOfAnyIs(inside, {']'}, |a.host|);
    }
  }

  /** The text after the scheme of a rendered URL splits where it was put together. */
  lemma AuthorityOfRendered(u: Url)
    requires u.WellFormed()
    ensures AuthorityOf(AfterUserinfo(u.AfterScheme())) == u.authority.Render()
  {
    var s, a := u.AfterScheme(), u.authority.Render();
    match u.userinfo
    case Some(info) =>
      assert s[..|info|] == info;
      IndexOfAnyIs(s, {'@'}, |info|);
      assert AfterUserinfo(s) == a + u.tail;
      AuthorityBeforeTail(a, u.tail);
    case None =>
      assert s == a + u.tail;
      NoUserinfo(a, u.tail);
      AuthorityBeforeTail(a, u.tail);
  }

  lemma AuthorityBeforeTail(a: string, tail: string)
    requires Free(a, DELIMITERS) && StartsTail(tail)
    ensures AuthorityOf(a + tail) == a
  {
    assert (a + tail)[..|a|] == a;
    IndexOfAnyIs(a + tail, DELIMITERS, |a|);
  }

  /** An `@` behind the authority is not taken for the end of a userinfo. */
  lemma NoUserinfo(a: string, tail: string)
    requires Free(a, {'@'}) && StartsTail(tail)
    ensures AfterUserinfo(a + tail) == a + tail
  {
    var s := a + tail;
    var at := IndexOfAny(s, {'@'});
    IndexStops(s, {'@'});
    if at < |s| {
      assert forall j :: 0 <= j < |a| ==> s[j] == a[j];
      assert at != |a|;
      assert s[..at][|a|] == tail[0];
    }
  }

  lemma FindInExtension(s: string, t: string, pattern: string, i: nat)
    requires pattern != "" && Find(s, pattern) == Some(i)
    ensures Find(s + t, pattern) == Some(i)
  {
    FindIff(s, pattern, i);
    forall j | 0 <= j < i ensures !OccursAt(s + t, pattern, j) {
      assert !OccursAt(s, pattern, j);
    }
    FindIff(s + t, pattern, i);
  }

  lemma ParsesRendered(u: Url)
    requires u.WellFormed()
    ensures ParseHost(u.Render()) == Some(u.authority.host)
  {
    FindInExtension(u.scheme + "://", u.AfterScheme(), "://", |u.scheme|);
    assert u.Render() == (u.scheme + "://") + u.AfterScheme();
    assert u.Render()[|u.scheme| + 3..] == u.AfterScheme();
    AuthorityOfRendered(u);
    RenderedHost(u.authority);
  }

  /** The userinfo and the rest of what follows a scheme, as the parser divides it. */
  lemma DivideAfterScheme(s: string) returns (userinfo: Option<string>, authority: string, tail: string)
    ensures authority == AuthorityOf(AfterUserinfo(s)) && Free(authority, DELIMITERS) && StartsTail(tail)
    ensures userinfo.Some? ==> Free(userinfo.value, {'@'} + DELIMITERS)
    ensures userinfo.None? ==> Free(authority, {'@'})
    ensures s == (if userinfo.Some? then userinfo.value + "@" else "") + authority + tail
  {
    var body := AfterUserinfo(s);
    authority := AuthorityOf(body);
    tail := CutAuthority(body);
    userinfo := CutUserinfo(s);
    AppendAssociates(if userinfo.Some? then userinfo.value + "@" else "", authority, tail);
    if userinfo.None? {
      NoAtInAuthority(s);
    }
  }

  lemma CutUserinfo(s: string) returns (userinfo: Option<string>)
    ensures userinfo.Some? ==> Free(userinfo.value, {'@'} + DELIMITERS)
    ensures userinfo.None? ==> var at := IndexOfAny(s, {'@'}); !(at < |s| && Free(s[..at], DELIMITERS))
    ensures s == (if userinfo.Some? then userinfo.value + "@" else "") + AfterUserinfo(s)
  {
    var at := IndexOfAny(s, {'@'});
    IndexStops(s, {'@'});
    if at < |s| && Free(s[..at], DELIMITERS) {
      userinfo := Some(s[..at]);
      CutAtSign(s, at);
    } else {
      userinfo := None;
      assert "" + s == s;
    }
  }

  lemma CutAtSign(s: string, at: nat)
    requires StopsAt(s, {'@'}, at) && at < |s| && Free(s[..at], DELIMITERS)
    ensures s == s[..at] + "@" + s[at + 1..] && Free(s[..at], {'@'} + DELIMITERS)
  {
  }

  lemma CutAuthority(body: string) returns (tail: string)
    ensures Free(AuthorityOf(body), DELIMITERS) && StartsTail(tail) && body == AuthorityOf(body) + tail
  {
    IndexStops(body, DELIMITERS);
    tail := body[|AuthorityOf(body)|..];
  }

  lemma NoAtInAuthority(s: string)
    requires var at := IndexOfAny(s, {'@'}); !(at < |s| && Free(s[..at], DELIMITERS))
    ensures Free(AuthorityOf(s), {'@'})
  {
    var at, end := IndexOfAny(s, {'@'}), IndexOfAny(s, DELIMITERS);
    IndexStops(s, {'@'});
    IndexStops(s, DELIMITERS);
    if at < |s| {
      var k :| 0 <= k < at && s[..at][k] in DELIMITERS;
      assert s[k] in DELIMITERS;
    }
    assert forall j :: 0 <= j < end ==> s[..end][j] == s[j];
    assert forall j :: 0 <= j < at ==> s[..at][j] == s[j];
  }

  /** Takes a parsed URL apart. */
  lemma PartsOf(url: string, host: string) returns (u: Url)
    requires ParseHost(url) == Some(host)
    ensures u.WellFormed() && u.Render() == url && u.authority.host == host
  {
    var i := Find(url, "://").value;
    FindIff(url, "://", i);
    var userinfo, authority, tail := DivideAfterScheme(url[i + 3..]);
    HostOfIff(authority, host);
    var a: Authority :| a.WellFormed() && a.Render() == authority && a.host == host;
    u := Url(url[..i], userinfo, a, tail);
    CutAt(url, "://", i);
    SchemeEnds(url, i);
  }

  lemma SchemeEnds(url: string, i: nat)
    requires Find(url, "://") == Some(i)
    ensures Find(url[..i] + "://", "://") == Some(i)
  {
    var s := url[..i] + "://";
    FindIff(url, "://", i);
    CutAt(url, "://", i);
    forall j | 0 <= j < i ensures !OccursAt(s, "://", j) {
      assert !OccursAt(url, "://", j);
    }
    FindIff(s, "://", i);
  }

  /** `parse_host` returns `host` exactly when the URL has a decomposition with that host. */
  lemma ParseHostIff(url: string, host: string)
    ensures ParseHost(url) == Some(host)
       <==> exists u: Url :: u.WellFormed() && u.Render() == url && u.authority.host == host
  {
    if ParseHost(url) == Some(host) {
      var u := PartsOf(url, host);
    }
    forall u: Url | u.WellFormed() && u.Render() == url && u.authority.host == host
      ensures ParseHost(url) == Some(host)
    {
      ParsesRendered(u);
    }
  }

  /** Any host returned is non-empty and free of the delimiters that end an authority. */
  lemma HostIsClean(url: string)
    requires ParseHost(url).Some?
    ensures ParseHost(url).value != "" && Free(ParseHost(url).value, {'/', '?', '#'})
  {
    var u := PartsOf(url, ParseHost(url).value);
    HostInAuthority(u.authority);
  }

  lemma HostInAuthority(a: Authority)
    requires a.WellFormed()
    ensures a.host != "" && Free(a.host, DELIMITERS)
  {
    forall i | 0 <= i < |a.host| ensures a.host[i] !in DELIMITERS {
      assert a.host[i] == a.Render()[if a.Name? then i else i + 1];
    }
  }

  predicate IsPort(s: string) {
    s != "" && s[0] == ':' && forall i :: 1 <= i < |s| ==> '0' <= s[i] <= '9'
  }

  /** Section 3.2 of RFC 3986: a scheme has no ':', userinfo and host no '@', and a port is digits. */
  predicate Rfc3986(u: Url) {
    && Free(u.scheme, {':'})
    && (u.userinfo.Some? ==> Free(u.userinfo.value, {'@'} + DELIMITERS))
    && u.authority.WellFormed() && Free(u.authority.Render(), {'@'})
    && (u.authority.rest == "" || IsPort(u.authority.rest))
    && StartsTail(u.tail)
  }

  /** Round trip: every well-formed URL gives back its host, whatever its tail contains. */
  lemma HostRoundTrip(u: Url)
    requires Rfc3986(u)
    ensures ParseHost(u.Render()) == Some(u.authority.host)
  {
    var s := u.scheme + "://";
    forall j | 0 <= j < |u.scheme| ensures !OccursAt(s, "://", j) {
      if OccursAt(s, "://", j) {
        OccursStarts(s, "://", j);
      }
    }
    FindIff(s, "://", |u.scheme|);
    ParsesRendered(u);
  }

  /** The character that ends the host inside an authority. */
  function HostEnd(a: Authority): char {
    if a.Name? then ':' else ']'
  }

  /**
   * The first '@' ends the userinfo. A further one is left in the host exactly when it stands before
   * the ':' or, in a literal, the ']' that ends the host; behind that it is dropped with the port.
   */
  lemma SecondAtInHostIff(u: Url)
    requires u.WellFormed()
    ensures var a := u.authority.Render();
      && ParseHost(u.Render()).Some?
      && (!Free(ParseHost(u.Render()).value, {'@'}) <==> IndexOfAny(a, {'@'}) < IndexOfAny(a, {HostEnd(u.authority)}))
  {
    ParsesRendered(u);
    AtBeforeEndIff(u.authority);
  }

  lemma AtBeforeEndIff(a: Authority)
    requires a.WellFormed()
    ensures !Free(a.host, {'@'}) <==> IndexOfAny(a.Render(), {'@'}) < IndexOfAny(a.Render(), {HostEnd(a)})
  {
    var s, shift := a.Render(), if a.Name? then 0 else 1;
    var at := IndexOfAny(s, {'@'});
    IndexStops(s, {'@'});
    HostEndsAt(a);
    assert forall i :: 0 <= i < |a.host| ==> s[i + shift] == a.host[i];
    if at < |a.host| + shift {
      assert a.Literal? ==> s[0] == '[';
      assert a.host[at - shift] == '@';
    } else {
      assert forall i :: 0 <= i < |a.host| ==> s[..at][i + shift] == a.host[i];
    }
  }

  /** The end character is the first of its kind, or in a name there may be none. */
  lemma HostEndsAt(a: Authority)
    requires a.WellFormed()
    ensures IndexOfAny(a.Render(), {HostEnd(a)}) == |a.host| + (if a.Name? then 0 else 1)
  {
    var s := a.Render();
    if a.Name? {
      assert s[..|a.host|] == a.host;
      IndexOfAnyIs(s, {':'}, |a.host|);
    } else {
      assert s[..|a.host| + 1] == "[" + a.host;
      IndexOfAnyIs(s, {']'}, |a.host| + 1);
    }
  }

  /** Two URLs with two '@' each, for any two letters: one keeps the second, one drops it with the port. */
  lemma SecondAtExamples(b: char, d: char)
    requires 'a' <= b <= 'z' && 'a' <= d <= 'z'
    ensures ParseHost("s://a@" + [b, '@', d]) == Some([b, '@', d])
    ensures ParseHost("s://a@" + [b, ':', '@', d]) == Some([b])
  {
    NameWithSecondAt(b, d);
    UrlOfLetter([b, '@', d], [], [b, '@', d]);
    UrlOfLetter([b], [':', '@', d], [b, ':', '@', d]);
  }

  lemma NameWithSecondAt(b: char, d: char)
    requires 'a' <= b <= 'z' && 'a' <= d <= 'z'
    ensures Name([b, '@', d], []).WellFormed() && [b, '@', d] + [] == [b, '@', d]
    ensures Name([b], [':', '@', d]).WellFormed() && [b] + [':', '@', d] == [b, ':', '@', d]
  {
  }

  lemma UrlOfLetter(host: string, rest: string, authority: string)
    requires Name(host, rest).WellFormed() && authority == host + rest
    ensures ParseHost("s://a@" + authority) == Some(host)
  {
    var u := Url("s", Some("a"), Name(host, rest), "");
    SchemeOfLetter();
    assert u.AfterScheme() == "a" + "@" + authority + "";
    assert u.Render() == "s" + "://" + ("a" + "@" + authority + "");
    assert "s" + "://" + ("a" + "@" + authority + "") == "s://a@" + authority;
    ParsesRendered(u);
  }

  lemma SchemeOfLetter()
    ensures Find("s" + "://", "://") == Some(1)
  {
    var s := "s" + "://";
    assert s[1..4] == "://" && s[0] != ':';
    if OccursAt(s, "://", 0) {
      OccursStarts(s, "://", 0);
    }
    FindIff(s, "://", 1);
  }

  /** The host of an IP literal is never the text with its brackets. */
  lemma BracketsRemoved(u: Url)
    requires u.WellFormed() && u.authority.Literal?
    ensures ParseHost(u.Render()) == Some(u.authority.host)
    ensures Free(u.authority.host, {']'}) && "[" + u.authority.host + "]" <= u.authority.Render()
  {
    ParsesRendered(u);
  }

  // ---------------------------------------------------- what the host depends on

  lemma ParseHostAt(url: string, i: nat, s: string)
    requires Find(url, "://") == Some(i) && url[i + 3..] == s
    ensures ParseHost(url) == HostAfterScheme(s)
  {
  }

  /** Nothing from the first delimiter after the authority onwards can change the host. */
  lemma TailIrrelevant(front: string, tail: string)
    requires Find(front, "://").Some? && StartsTail(tail)
    ensures ParseHost(front + tail) == ParseHost(front)
  {
    var i := Find(front, "://").value;
    var s := front[i + 3..];
    FindInExtension(front, tail, "://", i);
    DropOfAppend(front, tail, i + 3);
    ParseHostAt(front, i, s);
    ParseHostAt(front + tail, i, s + tail);
    HostIgnoresTail(s, tail);
  }

  lemma HostIgnoresTail(s: string, tail: string)
    requires StartsTail(tail)
    ensures HostAfterScheme(s + tail) == HostAfterScheme(s)
  {
    UserinfoIgnoresTail(s, tail);
    AuthorityIgnoresTail(AfterUserinfo(s), tail);
  }

  lemma UserinfoIgnoresTail(s: string, tail: string)
    requires StartsTail(tail)
    ensures AfterUserinfo(s + tail) == AfterUserinfo(s) + tail
  {
    var at := IndexOfAny(s, {'@'});
    IndexStops(s, {'@'});
    if at < |s| {
      assert (s + tail)[..at] == s[..at];
      IndexOfAnyIs(s + tail, {'@'}, at);
    } else {
      assert s[..at] == s;
      NoUserinfo(s, tail);
    }
  }

  lemma AuthorityIgnoresTail(s: string, tail: string)
    requires StartsTail(tail)
    ensures AuthorityOf(s + tail) == AuthorityOf(s)
  {
    var end := IndexOfAny(s, DELIMITERS);
    IndexStops(s, DELIMITERS);
    assert (s + tail)[..end] == s[..end];
    IndexOfAnyIs(s + tail, DELIMITERS, end);
  }
}
