/** The live blocklist that route tasks and the update scheduler share. */
module BlocklistModel {
  import opened Common
  import opened Text
  import opened PartitionLruModel
  import B = BlocklistTree

  /** Parameter names are lower-cased when a rule is made. */
  datatype UrlParamRule = UrlParamRule(name: string)

  function ParamRule(name: string): UrlParamRule {
    UrlParamRule(ToLower(name))
  }

  datatype Manifest = Manifest(contentVersion: U64, hostRules: seq<B.Rule>, urlParamRules: seq<UrlParamRule>)

  datatype BlockedEvent = BlockedEvent(kind: B.BlockKind, partitionKey: PartitionKey)

  /** What one manifest puts in force. */
  datatype Snapshot = Snapshot(rules: seq<B.Rule>, stripNames: set<string>, contentVersion: U64)

  const EMPTY_SNAPSHOT := Snapshot([], {}, 0)

  function SnapshotOf(m: Manifest): Snapshot {
    Snapshot(m.hostRules, set r | r in m.urlParamRules :: r.name, m.contentVersion)
  }

  class Blocklist {
    ghost var rules: seq<B.Rule>
    var hosts: B.Node
    var stripNames: set<string>
    var contentVersion: U64
    /** What the event sink has been told. */
    var events: seq<BlockedEvent>

    ghost predicate Valid()
      reads this
    {
      hosts == B.FromRules(rules)
    }

    ghost function Live(): Snapshot
      reads this
    {
      Snapshot(rules, stripNames, contentVersion)
    }

    constructor ()
      ensures Valid() && Live() == EMPTY_SNAPSHOT && events == []
    {
      rules, hosts, stripNames, contentVersion, events := [], B.FromRules([]), {}, 0, [];
    }

    method Swap(m: Manifest) returns (previous: U64)
      modifies this`rules, this`hosts, this`stripNames, this`contentVersion
      ensures Valid() && Live() == SnapshotOf(m) && previous == old(contentVersion)
      ensures rules == m.hostRules && contentVersion == m.contentVersion
      ensures forall name :: name in stripNames <==> exists r :: r in m.urlParamRules && r.name == name
    {
      var tree := B.BuildTree(m.hostRules);
      previous := contentVersion;
      rules, hosts, stripNames, contentVersion := m.hostRules, tree, SnapshotOf(m).stripNames, m.contentVersion;
    }

    method MatchHost(host: string) returns (kind: Option<B.BlockKind>)
      requires Valid()
      ensures kind == B.DeepestMatch(B.FromRules(rules), B.Labels(ToLower(host)))
    {
      kind := B.MatchHost(hosts, host);
    }

    method OnBlock(event: BlockedEvent)
      modifies this`events
      ensures events == old(events) + [event]
    {
      events := events + [event];
    }
  }

  /** A parameter rule made from a name in any casing lists that name in any casing. */
  lemma ParamRuleIgnoresCase(m: Manifest, name: string, key: string)
    requires ParamRule(name) in m.urlParamRules && ToLower(key) == ToLower(name)
    ensures ToLower(key) in SnapshotOf(m).stripNames
  {
    assert ParamRule(name).name == ToLower(key);
  }
}
