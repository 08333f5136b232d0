/** The subtree digest over what it stands for: children and their verdicts. */
module SubtreeGate {
  import opened Verdicts
  import opened Text
  import opened Framing
  import opened Graph

  type ChildVerdict = (NodeId, Verdict)

  function ChildPair(c: ChildVerdict): Pair {
    (Utf8Bytes(NodeIdString(c.0)), Utf8Bytes(VerdictString(c.1)))
  }

  function ChildPairs(children: seq<ChildVerdict>): (pairs: seq<Pair>)
    ensures |pairs| == |children|
  {
    seq(|children|, i requires 0 <= i < |children| => ChildPair(children[i]))
  }

  function ChildrenDigest(sha256: Hash, children: seq<ChildVerdict>): string {
    SubtreeDigest(sha256, ChildPairs(children))
  }

  /** An identity that its display string determines. */
  ghost predicate Plain(c: ChildVerdict) {
    SlashFree(c.0) && '@' !in VersionOf(c.0)
  }

  lemma VerdictStringInjective(v: Verdict, u: Verdict)
    requires VerdictString(v) == VerdictString(u)
    ensures v == u
  {
    assert "pass"[0] == 'p' && "warn"[0] == 'w' && "block"[0] == 'b';
  }

  lemma ChildPairInjective(a: ChildVerdict, b: ChildVerdict)
    requires Plain(a) && Plain(b) && ChildPair(a) == ChildPair(b)
    ensures a == b
  {
    Utf8Injective(NodeIdString(a.0), NodeIdString(b.0));
    Utf8Injective(VerdictString(a.1), VerdictString(b.1));
    NodeIdStringIdentifies(a.0, b.0);
    VerdictStringInjective(a.1, b.1);
  }

  lemma CountPush<T>(s: seq<T>, x: T)
    requires s != []
    ensures multiset(s)[x] == multiset(s[..|s| - 1])[x] + if s[|s| - 1] == x then 1 else 0
  {
    assert s == s[..|s| - 1] + [s[|s| - 1]];
  }

  lemma {:induction false} PairCount(children: seq<ChildVerdict>, c: ChildVerdict)
    requires Plain(c) && forall x :: x in children ==> Plain(x)
    ensures multiset(ChildPairs(children))[ChildPair(c)] == multiset(children)[c]
  {
    if children != [] {
      var (init, last) := (children[..|children| - 1], children[|children| - 1]);
      PairCount(init, c);
      CountPush(children, c);
      CountPush(ChildPairs(children), ChildPair(c));
      assert ChildPairs(children)[..|init|] == ChildPairs(init);
      if ChildPair(last) == ChildPair(c) {
        ChildPairInjective(last, c);
      }
    }
  }

  lemma PairSource(children: seq<ChildVerdict>, q: Pair) returns (i: nat)
    requires q in multiset(ChildPairs(children))
    ensures i < |children| && ChildPair(children[i]) == q
  {
    assert q in ChildPairs(children);
    i :| 0 <= i < |children| && ChildPairs(children)[i] == q;
  }

  lemma NoFewerPairs(a: seq<ChildVerdict>, b: seq<ChildVerdict>, q: Pair)
    requires multiset(a) == multiset(b)
    requires (forall c :: c in a ==> Plain(c)) && forall c :: c in b ==> Plain(c)
    ensures multiset(ChildPairs(a))[q] <= multiset(ChildPairs(b))[q]
  {
    if q in multiset(ChildPairs(a)) {
      var i := PairSource(a, q);
      PairCount(a, a[i]);
      PairCount(b, a[i]);
    }
  }

  lemma SamePairs(a: seq<ChildVerdict>, b: seq<ChildVerdict>)
    requires multiset(a) == multiset(b)
    requires (forall c :: c in a ==> Plain(c)) && forall c :: c in b ==> Plain(c)
    ensures multiset(ChildPairs(a)) == multiset(ChildPairs(b))
  {
    forall q: Pair ensures multiset(ChildPairs(a))[q] == multiset(ChildPairs(b))[q] {
      NoFewerPairs(a, b, q);
      NoFewerPairs(b, a, q);
    }
  }

  /** Under an injective hash and with '@'-free versions, two digests are equal iff they
      stand for the same children with the same verdicts, however they were ordered. */
  lemma DigestDeterminesChildren(sha256: Hash, a: seq<ChildVerdict>, b: seq<ChildVerdict>)
    requires Injective(sha256) && Representable(ChildPairs(a)) && Representable(ChildPairs(b))
    requires (forall c :: c in a ==> Plain(c)) && forall c :: c in b ==> Plain(c)
    ensures ChildrenDigest(sha256, a) == ChildrenDigest(sha256, b) <==> multiset(a) == multiset(b)
  {
    StaleSubtreeIsNeverServed(sha256, ChildPairs(a), Some(ChildPairs(b)));
    if multiset(a) == multiset(b) {
      SamePairs(a, b);
    }
    if multiset(ChildPairs(a)) == multiset(ChildPairs(b)) {
      forall c ensures multiset(a)[c] == multiset(b)[c] {
        if Plain(c) {
          PairCount(a, c);
          PairCount(b, c);
        } else {
          assert c !in a && c !in b;
        }
      }
    }
  }

  /** With an '@' in the version, or in the name after its first character, another named
      child has the same digest, whatever the hash: the gate cannot tell that the
      dependency was replaced. */
  lemma ReplacedChildIsServed(sha256: Hash, n: NodeId, v: Verdict)
    requires SlashFree(n) && n.name != "" && HasOtherSplit(n)
    ensures exists m :: m != n && m.name != "" && ChildrenDigest(sha256, [(m, v)]) == ChildrenDigest(sha256, [(n, v)])
  {
    NodeIdStringCollides(n);
    var m :| m != n && SlashFree(m) && m.name != "" && NodeIdString(m) == NodeIdString(n);
    assert ChildPairs([(m, v)]) == ChildPairs([(n, v)]);
  }
}
