/** Which hosts a blocklist rule covers, on the text of the hostnames. */
module BlocklistHosts {
  import opened Common
  import opened Text
  import opened BlocklistTree

  // ----------------------------------------------------- labels of a text

  lemma {:induction false} SplitOfConcat(x: string, d: string, separator: char)
    ensures Split(x + [separator] + d, separator) == Split(x, separator) + Split(d, separator)
    decreases |x|
  {
    var s := x + [separator] + d;
    var i := IndexOfAny(x, {separator});
    IndexStops(x, {separator});
    assert s[..i] == x[..i];
    IndexOfAnyIs(s, {separator}, i);
    if i == |x| {
      assert s[i + 1..] == d && s[..i] == x;
    } else {
      SplitOfConcat(x[i + 1..], d, separator);
      assert s[i + 1..] == x[i + 1..] + [separator] + d;
    }
  }

  lemma {:induction false} ReverseOfAppend(s: seq<string>, t: seq<string>)
    ensures Reverse(s + t) == Reverse(t) + Reverse(s)
  {
    if s == [] {
      assert [] + t == t;
    } else {
      assert (s + t)[1..] == s[1..] + t;
      ReverseOfAppend(s[1..], t);
    }
  }

  lemma {:induction false} NonEmptyOfAppend(s: seq<string>, t: seq<string>)
    ensures NonEmpty(s + t) == NonEmpty(s) + NonEmpty(t)
  {
    if s == [] {
      assert [] + t == t;
    } else {
      assert (s + t)[1..] == s[1..] + t;
      NonEmptyOfAppend(s[1..], t);
    }
  }

  /** The labels of a host below another start with that other's: they run right to left. */
  lemma LabelsBelow(x: string, d: string)
    ensures Labels(x + "." + d) == Labels(d) + Labels(x)
  {
    SplitOfConcat(x, d, '.');
    ReverseOfAppend(Split(x, '.'), Split(d, '.'));
    NonEmptyOfAppend(Reverse(Split(d, '.')), Reverse(Split(x, '.')));
  }

  lemma LowerOfConcat(x: string, d: string)
    ensures ToLower(x + "." + d) == ToLower(x) + "." + ToLower(d)
  {
  }

  /**
   * An inclusive rule that is the latest of its list covers every host below its hostname, whatever comes
   * in front and in whatever casing either is written.
   */
  lemma SubdomainsCovered(rules: seq<Rule>, d: string, kind: BlockKind, x: string, host: string)
    requires ToLower(host) == ToLower(x + "." + d) && exists i :: 0 <= i < |d| && d[i] != '.'
    ensures DeepestMatch(FromRules(rules + [HostRule(d, kind)]), Labels(ToLower(host))).Some?
  {
    LowerOfConcat(x, d);
    LabelsBelow(ToLower(x), ToLower(d));
    LowerKeepsDots(d);
    HasLabel(ToLower(d));
    RuleIgnoresCase(rules, d, kind, host);
  }

  /** A text with a character other than a dot has a label. */
  lemma HasLabel(d: string)
    requires exists i :: 0 <= i < |d| && d[i] != '.'
    ensures Labels(d) != []
  {
    if forall i :: 0 <= i < |Split(d, '.')| ==> Split(d, '.')[i] == "" {
      OnlyDots(d);
    } else {
      var i :| 0 <= i < |Split(d, '.')| && Split(d, '.')[i] != "";
      ReverseOf(Split(d, '.'), i);
      NonEmptyHolds(Reverse(Split(d, '.')), |Split(d, '.')| - 1 - i);
    }
  }

  lemma {:induction false} OnlyDots(d: string)
    requires forall i :: 0 <= i < |Split(d, '.')| ==> Split(d, '.')[i] == ""
    ensures forall i :: 0 <= i < |d| ==> d[i] == '.'
    decreases |d|
  {
    var i := IndexOfAny(d, {'.'});
    IndexStops(d, {'.'});
    if i == |d| {
      assert Split(d, '.')[0] == d;
    } else {
      var parts, rest := Split(d, '.'), Split(d[i + 1..], '.');
      assert parts[0] == d[..i];
      assert forall k :: 0 <= k < |rest| ==> rest[k] == parts[k + 1];
      OnlyDots(d[i + 1..]);
      assert forall k :: 1 <= k < |d| ==> d[k] == d[i + 1..][k - 1];
    }
  }

  lemma {:induction false} ReverseOf(s: seq<string>, i: nat)
    requires i < |s|
    ensures |Reverse(s)| == |s| && Reverse(s)[|s| - 1 - i] == s[i]
  {
    if |s| == 1 {
      assert Reverse(s[1..]) == [];
    } else {
      ReverseOf(s[1..], if i == 0 then 0 else i - 1);
    }
  }

  lemma {:induction false} NonEmptyHolds(s: seq<string>, i: nat)
    requires i < |s| && s[i] != ""
    ensures NonEmpty(s) != []
  {
    if i == 0 {
    } else {
      NonEmptyHolds(s[1..], i - 1);
    }
  }

  // ------------------------------------------- a rule alone, exactly

  /** The hostname without its empty labels: no leading, trailing or doubled dots. */
  function Tidy(host: string): string {
    Join(NonEmpty(Split(host, '.')), '.')
  }

  predicate EndsWith(s: string, t: string) {
    |t| <= |s| && s[|s| - |t|..] == t
  }

  /** The host is `d`, or `d` preceded by a dot ends it. */
  predicate IsOrIsBelow(host: string, d: string) {
    host == d || EndsWith(host, "." + d)
  }

  /** Labels left to right are the parts of the tidy text. */
  lemma {:induction false} LabelsReversed(parts: seq<string>)
    ensures NonEmpty(Reverse(parts)) == Reverse(NonEmpty(parts))
  {
    if parts == [] {
    } else {
      LabelsReversed(parts[1..]);
      NonEmptyOfAppend(Reverse(parts[1..]), [parts[0]]);
      assert [parts[0]][1..] == [];
      var rest := NonEmpty(parts[1..]);
      assert ([parts[0]] + rest)[1..] == rest;
    }
  }

  /** Reversal turns suffixes into prefixes. */
  lemma PrefixIsSuffixReversed(a: seq<string>, b: seq<string>)
    ensures Reverse(b) <= Reverse(a) <==> exists front :: a == front + b
  {
    if front :| a == front + b {
      ReverseOfAppend(front, b);
    }
    if Reverse(b) <= Reverse(a) {
      ReverseTwice(a);
      ReverseTwice(b);
      var more := Reverse(a)[|Reverse(b)|..];
      assert Reverse(a) == Reverse(b) + more;
      ReverseOfAppend(Reverse(b), more);
      assert a == Reverse(more) + b;
    }
  }

  lemma {:induction false} ReverseTwice(s: seq<string>)
    ensures Reverse(Reverse(s)) == s
  {
    if s == [] {
    } else {
      ReverseTwice(s[1..]);
      ReverseOfAppend(Reverse(s[1..]), [s[0]]);
      assert [s[0]][1..] == [] && Reverse([s[0]]) == [s[0]];
    }
  }

  predicate AreLabels(parts: seq<string>) {
    forall i :: 0 <= i < |parts| ==> parts[i] != "" && Free(parts[i], {'.'})
  }

  lemma {:induction false} NonEmptyAreLabels(parts: seq<string>)
    requires forall i :: 0 <= i < |parts| ==> Free(parts[i], {'.'})
    ensures AreLabels(NonEmpty(parts))
  {
    if parts == [] {
    } else {
      NonEmptyAreLabels(parts[1..]);
    }
  }

  /** Lists of labels end in one another exactly as their texts do. */
  lemma SuffixIsText(a: seq<string>, b: seq<string>)
    requires AreLabels(a) && AreLabels(b) && b != []
    ensures (exists front :: a == front + b) <==> IsOrIsBelow(Join(a, '.'), Join(b, '.'))
    ensures a == b <==> Join(a, '.') == Join(b, '.')
  {
    var s, t := Join(a, '.'), Join(b, '.');
    SplitOfJoin(b, '.');
    JoinEmptyIff(a);
    JoinEmptyIff(b);
    if a != [] {
      SplitOfJoin(a, '.');
    }
    if front :| a == front + b {
      if front == [] {
        assert a == b;
      } else {
        JoinOfAppend(front, b);
        assert s[|s| - |"." + t|..] == "." + t;
      }
    }
    if EndsWith(s, "." + t) {
      var x := s[..|s| - |t| - 1];
      assert s == x + ("." + t) == x + ['.'] + t;
      SplitOfConcat(x, t, '.');
      assert a == Split(x, '.') + b;
    }
    if s == t {
      assert a == b && a == [] + b;
    }
  }

  lemma JoinEmptyIff(parts: seq<string>)
    requires AreLabels(parts)
    ensures Join(parts, '.') == "" <==> parts == []
  {
  }

  lemma {:induction false} JoinOfAppend(a: seq<string>, b: seq<string>)
    requires a != [] && b != []
    ensures Join(a + b, '.') == Join(a, '.') + ("." + Join(b, '.'))
  {
    if |a| == 1 {
      assert (a + b)[1..] == b && (a + b)[0] == a[0];
      AppendAssociates(a[0], ".", Join(b, '.'));
    } else {
      assert (a + b)[1..] == a[1..] + b && (a + b)[0] == a[0];
      JoinOfAppend(a[1..], b);
      AppendAssociates(a[0] + ['.'], Join(a[1..], '.'), "." + Join(b, '.'));
    }
  }

  /** The label paths of two hostnames compare as their tidy texts do. */
  lemma PathsAreTexts(host: string, d: string)
    requires Labels(d) != []
    ensures Labels(d) <= Labels(host) <==> IsOrIsBelow(Tidy(host), Tidy(d))
    ensures Labels(d) == Labels(host) <==> Tidy(host) == Tidy(d)
  {
    var a, b := NonEmpty(Split(host, '.')), NonEmpty(Split(d, '.'));
    LabelsReversed(Split(host, '.'));
    LabelsReversed(Split(d, '.'));
    SplitPartsFree(host, '.');
    SplitPartsFree(d, '.');
    NonEmptyAreLabels(Split(host, '.'));
    NonEmptyAreLabels(Split(d, '.'));
    PrefixIsSuffixReversed(a, b);
    ReverseTwice(a);
    ReverseTwice(b);
    SuffixIsText(a, b);
  }

  /**
   * A rule alone in its list, exactly: made inclusive it blocks a host if and only if the host, empty
   * labels and casing aside, is its hostname or ends in a dot and its hostname; made exclusive, if and
   * only if it is its hostname.
   */
  lemma RuleCoversIff(d: string, kind: BlockKind, host: string)
    requires exists i :: 0 <= i < |d| && d[i] != '.'
    ensures var h, t := Tidy(ToLower(host)), Tidy(ToLower(d));
      && DeepestMatch(FromRules([HostRule(d, kind)]), Labels(ToLower(host)))
         == (if IsOrIsBelow(h, t) then Some(kind) else None)
      && DeepestMatch(FromRules([HostExactRule(d, kind)]), Labels(ToLower(host)))
         == (if h == t then Some(kind) else None)
  {
    LowerKeepsDots(d);
    HasLabel(ToLower(d));
    PathsAreTexts(ToLower(host), ToLower(d));
    AloneMatches(HostRule(d, kind), Labels(ToLower(host)));
    AloneMatches(HostExactRule(d, kind), Labels(ToLower(host)));
  }

  lemma LowerKeepsDots(d: string)
    requires exists i :: 0 <= i < |d| && d[i] != '.'
    ensures exists i :: 0 <= i < |ToLower(d)| && ToLower(d)[i] != '.'
  {
    var i :| 0 <= i < |d| && d[i] != '.';
    assert ToLower(d)[i] != '.';
  }

  lemma AloneMatches(rule: Rule, labels: seq<string>)
    requires Labels(rule.hostname) != []
    ensures var path := Labels(rule.hostname);
      DeepestMatch(FromRules([rule]), labels)
      == if path == labels || (rule.appliesToSubdomains && path <= labels) then Some(rule.kind) else None
  {
    var root, path := FromRules([rule]), Labels(rule.hostname);
    DeepestMatchIsDeepest(root, labels);
    assert labels[..|labels|] == labels;
    forall depth | 1 <= depth <= |labels|
      ensures Applies(root, labels, depth) <==>
        labels[..depth] == path && (rule.appliesToSubdomains || depth == |labels|)
      ensures Applies(root, labels, depth) ==> TerminalAt(root, labels[..depth]).value.kind == rule.kind
    {
      TreeHoldsLastRules([rule], labels[..depth]);
      assert [rule][..0] == [];
    }
    if path <= labels {
      assert labels[..|path|] == path;
      assert Applies(root, labels, |path|) <==> rule.appliesToSubdomains || path == labels;
    }
  }
}
