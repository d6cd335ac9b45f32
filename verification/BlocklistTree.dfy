/** The reverse-label tree behind the host blocklist, and the rule list it stands for. */
module BlocklistTree {
  import opened Common
  import opened Text

  datatype BlockKind = Ad | Tracker | FingerprintAttempt

  datatype Rule = Rule(hostname: string, kind: BlockKind, appliesToSubdomains: bool)

  /** `Rule::host` and `Rule::host_exact` lower-case the hostname. */
  function HostRule(hostname: string, kind: BlockKind): Rule {
    Rule(ToLower(hostname), kind, true)
  }

  function HostExactRule(hostname: string, kind: BlockKind): Rule {
    Rule(ToLower(hostname), kind, false)
  }

  datatype Terminal = Terminal(kind: BlockKind, appliesToSubdomains: bool)

  datatype Node = Node(children: map<string, Node>, terminal: Option<Terminal>)

  const EMPTY_NODE := Node(map[], None)

  function NonEmpty(parts: seq<string>): seq<string> {
    if parts == [] then []
    else if parts[0] == "" then NonEmpty(parts[1..])
    else [parts[0]] + NonEmpty(parts[1..])
  }

  function Reverse(parts: seq<string>): seq<string> {
    if parts == [] then [] else Reverse(parts[1..]) + [parts[0]]
  }

  /** Labels right to left, empty ones skipped. */
  function Labels(host: string): seq<string> {
    NonEmpty(Reverse(Split(host, '.')))
  }

  function TerminalOf(rule: Rule): Terminal {
    Terminal(rule.kind, rule.appliesToSubdomains)
  }

  /** Descends along `labels`, creating nodes, and replaces the terminal at the end. */
  function InsertAt(node: Node, labels: seq<string>, terminal: Terminal): Node
    decreases |labels|
  {
    if labels == [] then node.(terminal := Some(terminal))
    else
      var child := if labels[0] in node.children then node.children[labels[0]] else EMPTY_NODE;
      node.(children := node.children[labels[0] := InsertAt(child, labels[1..], terminal)])
  }

  /** A hostname without any label is ignored. */
  function Insert(root: Node, rule: Rule): Node {
    if Labels(rule.hostname) == [] then root else InsertAt(root, Labels(rule.hostname), TerminalOf(rule))
  }

  function FromRules(rules: seq<Rule>): Node {
    if rules == [] then EMPTY_NODE else Insert(FromRules(rules[..|rules| - 1]), rules[|rules| - 1])
  }

  method BuildTree(rules: seq<Rule>) returns (root: Node)
    ensures root == FromRules(rules)
  {
    root := EMPTY_NODE;
    for i := 0 to |rules|
      invariant root == FromRules(rules[..i])
    {
      assert rules[..i + 1][..i] == rules[..i];
      root := Insert(root, rules[i]);
    }
    assert rules[..|rules|] == rules;
  }

  /** The deepest applicable terminal along `labels`. */
  function DeepestMatch(node: Node, labels: seq<string>): Option<BlockKind>
    decreases |labels|
  {
    if labels == [] || labels[0] !in node.children then None
    else
      var child := node.children[labels[0]];
      var deeper := DeepestMatch(child, labels[1..]);
      if deeper.Some? then deeper
      else if child.terminal.Some? && (child.terminal.value.appliesToSubdomains || |labels| == 1)
      then Some(child.terminal.value.kind)
      else None
  }

  method MatchHost(root: Node, host: string) returns (best: Option<BlockKind>)
    ensures best == DeepestMatch(root, Labels(ToLower(host)))
  {
    var labels := Labels(ToLower(host));
    var node := root;
    best := None;
    var i := 0;
    while i < |labels|
      invariant 0 <= i <= |labels|
      invariant var deeper := DeepestMatch(node, labels[i..]);
        DeepestMatch(root, labels) == if deeper.Some? then deeper else best
    {
      if labels[i] !in node.children {
        break;
      }
      assert labels[i..][1..] == labels[i + 1..];
      node := node.children[labels[i]];
      if node.terminal.Some? {
        var isLast := i + 1 == |labels|;
        if node.terminal.value.appliesToSubdomains || isLast {
          best := Some(node.terminal.value.kind);
        }
      }
      i := i + 1;
    }
  }

  // ----------------------------------------------------------- reference

  /** The last rule of the list for exactly this path of labels. */
  function LastRuleFor(rules: seq<Rule>, path: seq<string>): Option<Rule> {
    if rules == [] then None
    else if Labels(rules[|rules| - 1].hostname) == path then Some(rules[|rules| - 1])
    else LastRuleFor(rules[..|rules| - 1], path)
  }

  /** The last rule for the first `depth` labels, if it applies to a host with these labels. */
  function ApplicableRule(rules: seq<Rule>, labels: seq<string>, depth: nat): Option<Rule>
    requires depth <= |labels|
  {
    var r := LastRuleFor(rules, labels[..depth]);
    if r.Some? && (r.value.appliesToSubdomains || depth == |labels|) then r else None
  }

  /** The longest applicable hostname decides, however many rules cover the host. */
  ghost predicate Blocks(rules: seq<Rule>, labels: seq<string>, kind: BlockKind) {
    exists depth :: 1 <= depth <= |labels|
      && ApplicableRule(rules, labels, depth).Some?
      && ApplicableRule(rules, labels, depth).value.kind == kind
      && forall longer :: depth < longer <= |labels| ==> ApplicableRule(rules, labels, longer).None?
  }

  /** The terminal at the end of a path, if the path exists. */
  function TerminalAt(node: Node, path: seq<string>): Option<Terminal>
    decreases |path|
  {
    if path == [] then node.terminal
    else if path[0] in node.children then TerminalAt(node.children[path[0]], path[1..])
    else None
  }

  lemma {:induction false} InsertChangesOnePath(node: Node, labels: seq<string>, terminal: Terminal, path: seq<string>)
    ensures TerminalAt(InsertAt(node, labels, terminal), path)
         == if path == labels then Some(terminal) else TerminalAt(node, path)
    decreases |labels|
  {
    if labels == [] || path == [] || path[0] != labels[0] {
    } else {
      var child := if labels[0] in node.children then node.children[labels[0]] else EMPTY_NODE;
      InsertChangesOnePath(child, labels[1..], terminal, path[1..]);
      assert path == labels <==> path[1..] == labels[1..] by {
        assert path == [path[0]] + path[1..] && labels == [labels[0]] + labels[1..];
      }
    }
  }

  /** The tree holds, at every path, the last rule of the list for it. */
  lemma {:induction false} TreeHoldsLastRules(rules: seq<Rule>, path: seq<string>)
    requires path != []
    ensures TerminalAt(FromRules(rules), path)
         == var r := LastRuleFor(rules, path); if r.Some? then Some(TerminalOf(r.value)) else None
  {
    if rules == [] {
    } else {
      var before, last := rules[..|rules| - 1], rules[|rules| - 1];
      TreeHoldsLastRules(before, path);
      InsertChangesOnePath(FromRules(before), Labels(last.hostname), TerminalOf(last), path);
    }
  }

  /** A terminal found `depth` labels down applies to a host with these labels. */
  predicate Applies(node: Node, labels: seq<string>, depth: nat)
    requires depth <= |labels|
  {
    var t := TerminalAt(node, labels[..depth]);
    t.Some? && (t.value.appliesToSubdomains || depth == |labels|)
  }

  lemma AppliesOneDown(node: Node, labels: seq<string>, depth: nat)
    requires 1 <= depth <= |labels| && labels[0] in node.children
    ensures Applies(node, labels, depth) == Applies(node.children[labels[0]], labels[1..], depth - 1)
    ensures TerminalAt(node, labels[..depth]) == TerminalAt(node.children[labels[0]], labels[1..][..depth - 1])
  {
    assert labels[..depth][1..] == labels[1..][..depth - 1];
  }

  /** `DeepestMatch` finds the deepest terminal that applies. */
  lemma {:induction false} DeepestMatchIsDeepest(node: Node, labels: seq<string>)
    ensures match DeepestMatch(node, labels)
      case None => forall depth :: 1 <= depth <= |labels| ==> !Applies(node, labels, depth)
      case Some(kind) => exists depth | 1 <= depth <= |labels| :: (
        && Applies(node, labels, depth)
        && TerminalAt(node, labels[..depth]).value.kind == kind
        && forall longer :: depth < longer <= |labels| ==> !Applies(node, labels, longer))
    decreases |labels|
  {
    if labels == [] {
    } else if labels[0] !in node.children {
      forall depth | 1 <= depth <= |labels| ensures !Applies(node, labels, depth) {
        assert labels[..depth][0] == labels[0];
      }
    } else {
      var child, rest := node.children[labels[0]], labels[1..];
      DeepestMatchIsDeepest(child, rest);
      forall depth | 1 <= depth <= |labels|
        ensures Applies(node, labels, depth) == Applies(child, rest, depth - 1)
        ensures TerminalAt(node, labels[..depth]) == TerminalAt(child, rest[..depth - 1])
      {
        AppliesOneDown(node, labels, depth);
      }
      match DeepestMatch(child, rest)
      case Some(kind) =>
        var d :| 1 <= d <= |rest| && Applies(child, rest, d) && TerminalAt(child, rest[..d]).value.kind == kind
          && forall longer :: d < longer <= |rest| ==> !Applies(child, rest, longer);
        assert Applies(node, labels, d + 1);
      case None =>
        assert rest[..0] == [];
        assert Applies(child, rest, 0) <==> child.terminal.Some? && (child.terminal.value.appliesToSubdomains || rest == []);
        if Applies(child, rest, 0) {
          assert Applies(node, labels, 1);
        }
    }
  }

  /**
   * Refinement: looking a host up in the tree gives what the rule list says, where of several rules
   * for one hostname the last one counts, and of several hostnames the longest.
   */
  lemma TreeRefinesRules(rules: seq<Rule>, host: string)
    ensures var labels := Labels(ToLower(host));
      forall kind :: DeepestMatch(FromRules(rules), labels) == Some(kind) <==> Blocks(rules, labels, kind)
  {
    var labels, root := Labels(ToLower(host)), FromRules(rules);
    DeepestMatchIsDeepest(root, labels);
    forall depth | 1 <= depth <= |labels|
      ensures Applies(root, labels, depth) <==> ApplicableRule(rules, labels, depth).Some?
      ensures Applies(root, labels, depth) ==>
        TerminalAt(root, labels[..depth]).value.kind == ApplicableRule(rules, labels, depth).value.kind
    {
      assert labels[..depth] != [];
      TreeHoldsLastRules(rules, labels[..depth]);
    }
    var found := DeepestMatch(root, labels);
    if found.Some? {
      assert Blocks(rules, labels, found.value);
    }
    forall kind | Blocks(rules, labels, kind) ensures found == Some(kind) {
      if found.Some? {
        BlocksIsUnique(rules, labels, found.value, kind);
      }
    }
  }

  /** At most one kind is the answer. */
  lemma BlocksIsUnique(rules: seq<Rule>, labels: seq<string>, kind: BlockKind, kind': BlockKind)
    requires Blocks(rules, labels, kind) && Blocks(rules, labels, kind')
    ensures kind == kind'
  {
    var d :| 1 <= d <= |labels| && ApplicableRule(rules, labels, d).Some?
      && ApplicableRule(rules, labels, d).value.kind == kind
      && forall longer :: d < longer <= |labels| ==> ApplicableRule(rules, labels, longer).None?;
    var d' :| 1 <= d' <= |labels| && ApplicableRule(rules, labels, d').Some?
      && ApplicableRule(rules, labels, d').value.kind == kind'
      && forall longer :: d' < longer <= |labels| ==> ApplicableRule(rules, labels, longer).None?;
    assert !(d < d') && !(d' < d);
  }

  /**
   * Casing never matters, on either side: the latest rule, made from a hostname in any casing, decides
   * its own host; made subdomain-inclusive it covers every host below, made exclusive no other host.
   */
  lemma RuleIgnoresCase(rules: seq<Rule>, hostname: string, kind: BlockKind, host: string)
    requires Labels(ToLower(hostname)) != []
    ensures var path, labels := Labels(ToLower(hostname)), Labels(ToLower(host));
      && (path == labels ==> DeepestMatch(FromRules(rules + [HostRule(hostname, kind)]), labels) == Some(kind))
      && (path == labels ==> DeepestMatch(FromRules(rules + [HostExactRule(hostname, kind)]), labels) == Some(kind))
      && (path <= labels ==> DeepestMatch(FromRules(rules + [HostRule(hostname, kind)]), labels).Some?)
      && (path != labels ==> DeepestMatch(FromRules([HostExactRule(hostname, kind)]), labels) == None)
  {
    var labels := Labels(ToLower(host));
    if Labels(ToLower(hostname)) <= labels {
      LatestRuleApplies(rules, HostRule(hostname, kind), labels);
      LatestRuleApplies(rules, HostExactRule(hostname, kind), labels);
    }
    var alone := [HostExactRule(hostname, kind)];
    DeepestMatchIsDeepest(FromRules(alone), labels);
    forall depth | 1 <= depth <= |labels|
      ensures Applies(FromRules(alone), labels, depth) ==> labels == Labels(ToLower(hostname))
    {
      TreeHoldsLastRules(alone, labels[..depth]);
      assert labels[..|labels|] == labels;
    }
  }

  lemma LatestRuleApplies(rules: seq<Rule>, rule: Rule, labels: seq<string>)
    requires Labels(rule.hostname) != [] && Labels(rule.hostname) <= labels
    ensures var found := DeepestMatch(FromRules(rules + [rule]), labels);
      && (rule.appliesToSubdomains ==> found.Some?)
      && (Labels(rule.hostname) == labels ==> found == Some(rule.kind))
  {
    var root, path := FromRules(rules + [rule]), Labels(rule.hostname);
    TreeHoldsLastRules(rules + [rule], path);
    DeepestMatchIsDeepest(root, labels);
    assert labels[..|path|] == path;
    assert TerminalAt(root, path) == Some(TerminalOf(rule));
    assert rule.appliesToSubdomains || path == labels ==> Applies(root, labels, |path|);
  }

  /**
   * The last rule for a hostname wins whatever its scope: a subdomain-exclusive rule does not
   * survive a later inclusive one for the same hostname.
   */
  lemma LaterRuleWins(rules: seq<Rule>, exact: Rule, inclusive: Rule)
    requires exact.hostname == inclusive.hostname && Labels(exact.hostname) != []
    requires !exact.appliesToSubdomains && inclusive.appliesToSubdomains
    ensures TerminalAt(FromRules(rules + [exact, inclusive]), Labels(exact.hostname)) == Some(TerminalOf(inclusive))
  {
    var all := rules + [exact, inclusive];
    assert all[|all| - 1] == inclusive;
    TreeHoldsLastRules(all, Labels(exact.hostname));
  }

  /** What the comment in `insert` promises: a subdomain-exclusive rule is kept over a later inclusive one. */
  function Preferred(rules: seq<Rule>, path: seq<string>): Option<Terminal> {
    if rules == [] then None
    else
      var last, before := rules[|rules| - 1], Preferred(rules[..|rules| - 1], path);
      if Labels(last.hostname) != path then before
      else if before.Some? && !before.value.appliesToSubdomains && last.appliesToSubdomains then before
      else Some(TerminalOf(last))
  }

  predicate ExclusiveFor(rule: Rule, path: seq<string>) {
    Labels(rule.hostname) == path && !rule.appliesToSubdomains
  }

  ghost predicate AnyExclusive(rules: seq<Rule>, path: seq<string>) {
    exists i :: 0 <= i < |rules| && ExclusiveFor(rules[i], path)
  }

  /** The promise is kept exactly for hostnames whose last rule is exclusive or that have no exclusive rule. */
  lemma PreferenceKeptIff(rules: seq<Rule>, path: seq<string>)
    requires path != []
    ensures TerminalAt(FromRules(rules), path) == Preferred(rules, path)
       <==> var last := LastRuleFor(rules, path);
            last.None? || !last.value.appliesToSubdomains || !AnyExclusive(rules, path)
  {
    TreeHoldsLastRules(rules, path);
    PreferredIs(rules, path);
  }

  lemma {:induction false} PreferredIs(rules: seq<Rule>, path: seq<string>)
    ensures var last, preferred := LastRuleFor(rules, path), Preferred(rules, path);
      && (last.Some? <==> preferred.Some?)
      && (preferred.Some? ==> (preferred.value.appliesToSubdomains <==> !AnyExclusive(rules, path)))
      && (last.Some? && (!last.value.appliesToSubdomains || !AnyExclusive(rules, path)) ==>
            preferred.value == TerminalOf(last.value))
      && (last.None? ==> !AnyExclusive(rules, path))
  {
    if rules == [] {
    } else {
      var before, last := rules[..|rules| - 1], rules[|rules| - 1];
      PreferredIs(before, path);
      assert AnyExclusive(rules, path) <==> AnyExclusive(before, path) || ExclusiveFor(last, path) by {
        assert forall i :: 0 <= i < |before| ==> before[i] == rules[i];
      }
    }
  }
}
