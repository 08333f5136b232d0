/** Dependency identities and the adjacency map the lockfile readers fill. */
module Graph {
  import opened Text

  datatype NodeId =
    | Registry(name: string, version: string, registry: string)
    | Git(name: string, commitSha: string)

  /** The display and fingerprint form of an identity. */
  function NodeIdString(n: NodeId): string {
    match n
    case Registry(name, version, registry) => "registry:" + registry + "/" + name + "@" + version
    case Git(name, commitSha) => "git:" + name + "@" + commitSha
  }

  ghost predicate SlashFree(n: NodeId) {
    n.Registry? ==> '/' !in n.registry
  }

  function VersionOf(n: NodeId): string {
    if n.Registry? then n.version else n.commitSha
  }

  function WithNameVersion(n: NodeId, name: string, version: string): NodeId {
    if n.Registry? then Registry(name, version, n.registry) else Git(name, version)
  }

  lemma NodeIdStringShape(n: NodeId)
    ensures n.Registry? ==> NodeIdString(n) == ("registry:" + n.registry) + "/" + (n.name + "@" + n.version)
    ensures n.Git? ==> NodeIdString(n) == "git:" + (n.name + "@" + n.commitSha)
  {
    if n.Registry? {
      assert ("registry:" + n.registry) + "/" + (n.name + "@" + n.version)
          == "registry:" + n.registry + "/" + n.name + "@" + n.version;
    } else {
      assert "git:" + (n.name + "@" + n.commitSha) == "git:" + n.name + "@" + n.commitSha;
    }
  }

  /** Equal strings agree on everything up to the position of the '@'. */
  lemma EqualStrings(m: NodeId, n: NodeId)
    requires NodeIdString(m) == NodeIdString(n) && SlashFree(m) && SlashFree(n)
    ensures m.Registry? == n.Registry? && m == WithNameVersion(n, m.name, VersionOf(m))
    ensures m.name + "@" + VersionOf(m) == n.name + "@" + VersionOf(n)
  {
    NodeIdStringShape(m);
    NodeIdStringShape(n);
    var (s, t) := (NodeIdString(m), NodeIdString(n));
    assert m.Registry? ==> s[0] == 'r';
    assert m.Git? ==> s[0] == 'g';
    assert n.Registry? ==> t[0] == 'r';
    assert n.Git? ==> t[0] == 'g';
    if m.Registry? {
      SplitAtFirst("registry:" + m.registry, m.name + "@" + m.version, "registry:" + n.registry, n.name + "@" + n.version, '/');
      assert m.registry == ("registry:" + m.registry)[9..] && n.registry == ("registry:" + n.registry)[9..];
    } else {
      assert m.name + "@" + m.commitSha == s[4..] && n.name + "@" + n.commitSha == t[4..];
    }
  }

  /** Moving the '@' that separates name and version to another '@' changes the
      identity and keeps the string. */
  lemma AnotherSplit(n: NodeId, i: nat)
    requires var s := n.name + "@" + VersionOf(n); i < |s| && s[i] == '@' && i != |n.name|
    ensures var s := n.name + "@" + VersionOf(n);
            var m := WithNameVersion(n, s[..i], s[i + 1..]);
            m != n && NodeIdString(m) == NodeIdString(n)
  {
    var s := n.name + "@" + VersionOf(n);
    var m := WithNameVersion(n, s[..i], s[i + 1..]);
    assert m.name + "@" + VersionOf(m) == s;
    NodeIdStringShape(n);
    NodeIdStringShape(m);
  }

  lemma OnlySplit(m: NodeId, n: NodeId)
    requires !HasOtherSplit(n) && m.name != "" && m.name + "@" + VersionOf(m) == n.name + "@" + VersionOf(n)
    ensures m.name == n.name && VersionOf(m) == VersionOf(n)
  {
    var s := n.name + "@" + VersionOf(n);
    assert s[|m.name|] == '@';
    assert forall j :: 0 < j < |s| && s[j] == '@' ==> j == |n.name|;
    SplitAtSamePlace(m.name, VersionOf(m), n.name, VersionOf(n), '@');
  }

  /** An '@' at which another name and version could be split. */
  predicate HasOtherSplit(n: NodeId) {
    '@' in VersionOf(n) || exists i :: 0 < i < |n.name| && n.name[i] == '@'
  }

  /** Named identities do share strings, exactly when an '@' occurs in the version, or in
      the name after its first character, where scoped names have theirs (registry labels
      never contain a '/'). */
  lemma NodeIdStringCollides(n: NodeId)
    requires SlashFree(n) && n.name != ""
    ensures (exists m :: m != n && SlashFree(m) && m.name != "" && NodeIdString(m) == NodeIdString(n)) <==> HasOtherSplit(n)
  {
    var s := n.name + "@" + VersionOf(n);
    if '@' in VersionOf(n) {
      var i :| 0 <= i < |VersionOf(n)| && VersionOf(n)[i] == '@';
      AnotherSplit(n, |n.name| + 1 + i);
    } else if i :| 0 < i < |n.name| && n.name[i] == '@' {
      AnotherSplit(n, i);
    } else {
      forall m | SlashFree(m) && m.name != "" && NodeIdString(m) == NodeIdString(n) ensures m == n {
        EqualStrings(m, n);
        OnlySplit(m, n);
      }
    }
  }

  /** Among identities whose versions are '@'-free, the string identifies the node. */
  lemma NodeIdStringIdentifies(m: NodeId, n: NodeId)
    requires SlashFree(m) && SlashFree(n) && '@' !in VersionOf(m) && '@' !in VersionOf(n)
    requires NodeIdString(m) == NodeIdString(n)
    ensures m == n
  {
    EqualStrings(m, n);
    SplitAtLast(m.name, VersionOf(m), n.name, VersionOf(n), '@');
  }
}
