/** The length-framed byte strings behind the subtree digest and the git tree
    hash. A Rust `str` is the sequence of its UTF-8 bytes, ordered bytewise. */
module Framing {
  import opened Bytes
  import opened Verdicts

  type Pair = (seq<Byte>, seq<Byte>)

  // ------------------------------------------------------------------
  // Framing and its inverse
  // ------------------------------------------------------------------

  function Frame(b: seq<Byte>): seq<Byte> {
    Length64(|b|) + b
  }

  function FramePair(q: Pair): seq<Byte> {
    Frame(q.0) + Frame(q.1)
  }

  function FramePairs(pairs: seq<Pair>): seq<Byte> {
    if pairs == [] then [] else FramePair(pairs[0]) + FramePairs(pairs[1..])
  }

  lemma {:induction false} FramePairsAppend(pairs: seq<Pair>, q: Pair)
    ensures FramePairs(pairs + [q]) == FramePairs(pairs) + FramePair(q)
  {
    if pairs == [] {
      assert [] + [q] == [q] && [q][1..] == [];
    } else {
      assert (pairs + [q])[1..] == pairs[1..] + [q];
      FramePairsAppend(pairs[1..], q);
    }
  }

  /** Every field length fits the 64-bit frame. */
  predicate Representable(pairs: seq<Pair>) {
    forall q :: q in pairs ==> |q.0| < TWO64 && |q.1| < TWO64
  }

  datatype Read = Truncated | Field(value: seq<Byte>, rest: seq<Byte>)

  function ReadFrame(s: seq<Byte>): (r: Read)
    ensures r.Field? ==> |r.rest| < |s|
  {
    if |s| < 8 then Truncated
    else
      var n := LittleEndianValue(s[..8]);
      if |s| - 8 < n then Truncated else Field(s[8..8 + n], s[8 + n..])
  }

  /** The decoder: reads pairs of frames until the input is used up. */
  function ReadPairs(s: seq<Byte>): Option<seq<Pair>>
    decreases |s|
  {
    if s == [] then Some([])
    else match ReadFrame(s)
      case Truncated => None
      case Field(a, s1) =>
        match ReadFrame(s1)
        case Truncated => None
        case Field(b, s2) =>
          match ReadPairs(s2)
          case None => None
          case Some(rest) => Some([(a, b)] + rest)
  }

  lemma ReadFrameInverts(b: seq<Byte>, rest: seq<Byte>)
    requires |b| < TWO64
    ensures ReadFrame(Frame(b) + rest) == Field(b, rest)
  {
    var s := Frame(b) + rest;
    Length64Inverts(|b|);
    assert s[..8] == Length64(|b|);
    assert s[8..8 + |b|] == b && s[8 + |b|..] == rest;
  }

  /** The decoder inverts the framing for any number of pairs. */
  lemma {:induction false} ReadPairsInverts(pairs: seq<Pair>)
    requires Representable(pairs)
    ensures ReadPairs(FramePairs(pairs)) == Some(pairs)
  {
    if pairs != [] {
      var s1 := Frame(pairs[0].1) + FramePairs(pairs[1..]);
      assert FramePairs(pairs) == Frame(pairs[0].0) + s1;
      assert pairs[0] in pairs;
      ReadFrameInverts(pairs[0].0, s1);
      ReadFrameInverts(pairs[0].1, FramePairs(pairs[1..]));
      ReadPairsInverts(pairs[1..]);
      assert [(pairs[0].0, pairs[0].1)] + pairs[1..] == pairs;
    }
  }

  lemma FramePairsInjective(a: seq<Pair>, b: seq<Pair>)
    requires Representable(a) && Representable(b) && FramePairs(a) == FramePairs(b)
    ensures a == b
  {
    ReadPairsInverts(a);
    ReadPairsInverts(b);
  }

  // ------------------------------------------------------------------
  // The deterministic order
  // ------------------------------------------------------------------

  predicate LexLe(a: seq<Byte>, b: seq<Byte>) {
    if a == [] then true
    else if b == [] then false
    else if a[0] != b[0] then a[0] < b[0]
    else LexLe(a[1..], b[1..])
  }

  lemma {:induction false} LexTotal(a: seq<Byte>, b: seq<Byte>)
    ensures LexLe(a, b) || LexLe(b, a)
    ensures LexLe(a, b) && LexLe(b, a) ==> a == b
  {
    if a != [] && b != [] && a[0] == b[0] {
      LexTotal(a[1..], b[1..]);
      assert a == [a[0]] + a[1..] && b == [b[0]] + b[1..];
    }
  }

  lemma {:induction false} LexTransitive(a: seq<Byte>, b: seq<Byte>, c: seq<Byte>)
    requires LexLe(a, b) && LexLe(b, c)
    ensures LexLe(a, c)
  {
    if a != [] && b != [] && c != [] && a[0] == b[0] == c[0] {
      LexTransitive(a[1..], b[1..], c[1..]);
    }
  }

  /** First components first, second components as a tiebreaker. */
  predicate PairLe(p: Pair, q: Pair) {
    LexLe(p.0, q.0) && (p.0 == q.0 ==> LexLe(p.1, q.1))
  }

  lemma PairOrder(p: Pair, q: Pair, r: Pair)
    ensures PairLe(p, q) || PairLe(q, p)
    ensures PairLe(p, q) && PairLe(q, p) ==> p == q
    ensures PairLe(p, q) && PairLe(q, r) ==> PairLe(p, r)
  {
    LexTotal(p.0, q.0);
    LexTotal(p.1, q.1);
    if PairLe(p, q) && PairLe(q, r) {
      LexTransitive(p.0, q.0, r.0);
      LexTotal(q.0, r.0);
      if p.0 == q.0 == r.0 {
        LexTransitive(p.1, q.1, r.1);
      }
    }
  }

  ghost predicate Sorted(s: seq<Pair>) {
    forall i, j :: 0 <= i < j < |s| ==> PairLe(s[i], s[j])
  }

  function InsertPair(p: Pair, s: seq<Pair>): (r: seq<Pair>)
    ensures multiset(r) == multiset{p} + multiset(s)
  {
    if s == [] then [p]
    else if PairLe(p, s[0]) then [p] + s
    else
      assert s == [s[0]] + s[1..];
      [s[0]] + InsertPair(p, s[1..])
  }

  function SortPairs(s: seq<Pair>): (r: seq<Pair>)
    ensures multiset(r) == multiset(s)
  {
    if s == [] then []
    else
      assert s == [s[0]] + s[1..];
      InsertPair(s[0], SortPairs(s[1..]))
  }

  lemma {:induction false} InsertKeepsSorted(p: Pair, s: seq<Pair>)
    requires Sorted(s)
    ensures Sorted(InsertPair(p, s))
  {
    if s != [] {
      PairOrder(p, s[0], p);
      if PairLe(p, s[0]) {
        forall j | 0 <= j < |s| ensures PairLe(p, s[j]) { PairOrder(p, s[0], s[j]); }
      } else {
        InsertKeepsSorted(p, s[1..]);
        var r := InsertPair(p, s[1..]);
        forall j | 0 <= j < |r| ensures PairLe(s[0], r[j]) {
          assert r[j] in multiset(r);
          assert r[j] == p || r[j] in s[1..];
        }
      }
    }
  }

  lemma {:induction false} SortPairsSorts(s: seq<Pair>)
    ensures Sorted(SortPairs(s))
  {
    if s != [] {
      SortPairsSorts(s[1..]);
      InsertKeepsSorted(s[0], SortPairs(s[1..]));
    }
  }

  /** A list has only one sorted arrangement, so any correct sort agrees with
      this one. */
  lemma {:induction false} SortedIsUnique(a: seq<Pair>, b: seq<Pair>)
    requires Sorted(a) && Sorted(b) && multiset(a) == multiset(b)
    ensures a == b
  {
    if a == [] || b == [] {
      assert |a| == |multiset(a)| == |multiset(b)| == |b|;
    } else {
      HeadIsLeast(a, b);
      HeadIsLeast(b, a);
      PairOrder(a[0], b[0], a[0]);
      DropHead(a);
      DropHead(b);
      SortedIsUnique(a[1..], b[1..]);
    }
  }

  lemma DropHead(a: seq<Pair>)
    requires a != []
    ensures a == [a[0]] + a[1..] && multiset(a[1..]) == multiset(a) - multiset{a[0]}
  {
  }

  lemma HeadIsLeast(a: seq<Pair>, b: seq<Pair>)
    requires Sorted(a) && a != [] && b != [] && multiset(a) == multiset(b)
    ensures PairLe(a[0], b[0])
  {
    assert b[0] in multiset(a);
    var j :| 0 <= j < |a| && a[j] == b[0];
    PairOrder(a[0], a[0], a[0]);
  }

  // ------------------------------------------------------------------
  // Subtree digest
  // ------------------------------------------------------------------

  /** SHA-256, as far as this code is concerned. */
  type Hash = seq<Byte> -> seq<Byte>

  ghost predicate Injective(sha256: Hash) {
    forall x, y :: sha256(x) == sha256(y) ==> x == y
  }

  function Sha256String(sha256: Hash, preimage: seq<Byte>): string {
    "sha256:" + Hex(sha256(preimage))
  }

  function SubtreeDigest(sha256: Hash, children: seq<Pair>): string {
    Sha256String(sha256, FramePairs(SortPairs(children)))
  }

  /** The four updates that feed one pair to the hasher. */
  method FeedPair(fed: seq<Byte>, first: seq<Byte>, second: seq<Byte>) returns (fed': seq<Byte>)
    ensures fed' == fed + FramePair((first, second))
  {
    fed' := fed + Length64(|first|);
    fed' := fed' + first;
    fed' := fed' + Length64(|second|);
    fed' := fed' + second;
    Regroup(fed, Length64(|first|), first, Length64(|second|), second);
  }

  lemma Regroup<T>(x: seq<T>, a: seq<T>, b: seq<T>, c: seq<T>, d: seq<T>)
    ensures x + a + b + c + d == x + ((a + b) + (c + d))
  {
  }

  method FeedPairs(pairs: seq<Pair>) returns (fed: seq<Byte>)
    ensures fed == FramePairs(pairs)
  {
    fed := [];
    for i := 0 to |pairs|
      invariant fed == FramePairs(pairs[..i])
    {
      FramePairsAppend(pairs[..i], pairs[i]);
      assert pairs[..i + 1] == pairs[..i] + [pairs[i]];
      fed := FeedPair(fed, pairs[i].0, pairs[i].1);
    }
    assert pairs[..|pairs|] == pairs;
  }

  method ComputeSubtreeDigest(sha256: Hash, children: seq<Pair>) returns (digest: string)
    ensures digest == SubtreeDigest(sha256, children)
  {
    var fed := FeedPairs(SortPairs(children));
    return Sha256String(sha256, fed);
  }

  /** The hashed byte string depends on the children as a multiset, and on nothing
      less: sorting forgets the order, framing forgets nothing else. */
  lemma SubtreePreimageIsMultiset(a: seq<Pair>, b: seq<Pair>)
    requires Representable(a) && Representable(b)
    ensures FramePairs(SortPairs(a)) == FramePairs(SortPairs(b)) <==> multiset(a) == multiset(b)
  {
    SortPairsSorts(a);
    SortPairsSorts(b);
    if multiset(a) == multiset(b) {
      SortedIsUnique(SortPairs(a), SortPairs(b));
    }
    if FramePairs(SortPairs(a)) == FramePairs(SortPairs(b)) {
      SortIsRepresentable(a);
      SortIsRepresentable(b);
      FramePairsInjective(SortPairs(a), SortPairs(b));
      assert multiset(a) == multiset(SortPairs(a));
    }
  }

  lemma SortIsRepresentable(a: seq<Pair>)
    requires Representable(a)
    ensures Representable(SortPairs(a))
  {
    forall q | q in SortPairs(a) ensures q in a {
      assert q in multiset(SortPairs(a));
    }
  }

  lemma Sha256StringInjective(sha256: Hash, x: seq<Byte>, y: seq<Byte>)
    requires Injective(sha256) && Sha256String(sha256, x) == Sha256String(sha256, y)
    ensures x == y
  {
    assert Hex(sha256(x)) == Sha256String(sha256, x)[7..] == Sha256String(sha256, y)[7..] == Hex(sha256(y));
    HexInjective(sha256(x), sha256(y));
  }

  /** The gate on a transitive row. */
  predicate SubtreeDigestValid(stored: Option<string>, recomputed: Option<string>) {
    match stored
    case None => true
    case Some(s) => recomputed == Some(s)
  }

  /** A row recorded for `children` passes the gate now iff the same children have
      the same verdicts now, as multisets; if they cannot be re-fingerprinted it
      does not pass. Only a row without a digest skips the gate. */
  lemma StaleSubtreeIsNeverServed(sha256: Hash, children: seq<Pair>, now: Option<seq<Pair>>)
    requires Injective(sha256) && Representable(children) && (now.Some? ==> Representable(now.value))
    ensures var recomputed := match now case None => None case Some(c) => Some(SubtreeDigest(sha256, c));
            SubtreeDigestValid(Some(SubtreeDigest(sha256, children)), recomputed)
            <==> now.Some? && multiset(now.value) == multiset(children)
  {
    if now.Some? {
      SubtreePreimageIsMultiset(children, now.value);
      if SubtreeDigest(sha256, children) == SubtreeDigest(sha256, now.value) {
        Sha256StringInjective(sha256, FramePairs(SortPairs(children)), FramePairs(SortPairs(now.value)));
      }
    }
  }

  /** A warm root is taken as a leaf, so its digest is recomputed over no children: its
      row passes the gate iff it was recorded without any. */
  lemma WarmRootSurvivesIff(sha256: Hash, children: seq<Pair>)
    requires Injective(sha256) && Representable(children)
    ensures SubtreeDigestValid(Some(SubtreeDigest(sha256, children)), Some(SubtreeDigest(sha256, [])))
       <==> children == []
  {
    StaleSubtreeIsNeverServed(sha256, children, Some([]));
    if children != [] {
      assert children[0] in multiset(children);
    }
  }

  /** In particular re-grading, adding or dropping one child forces a miss. */
  lemma ChangedChildForcesMiss(sha256: Hash, children: seq<Pair>, i: nat, verdict: seq<Byte>, extra: Pair)
    requires Injective(sha256) && Representable(children) && Representable([extra])
    requires i < |children| && verdict != children[i].1 && |verdict| < TWO64
    ensures var stored := Some(SubtreeDigest(sha256, children));
            && !SubtreeDigestValid(stored, Some(SubtreeDigest(sha256, children[i := (children[i].0, verdict)])))
            && !SubtreeDigestValid(stored, Some(SubtreeDigest(sha256, children + [extra])))
            && !SubtreeDigestValid(stored, Some(SubtreeDigest(sha256, children[..i] + children[i + 1..])))
  {
    var regraded := children[i := (children[i].0, verdict)];
    var dropped := children[..i] + children[i + 1..];
    assert children == children[..i] + [children[i]] + children[i + 1..];
    assert regraded == children[..i] + [(children[i].0, verdict)] + children[i + 1..];
    assert multiset(children)[children[i]] == multiset(dropped)[children[i]] + 1;
    assert multiset(regraded)[children[i]] == multiset(dropped)[children[i]];
    assert multiset(children + [extra])[extra] == multiset(children)[extra] + 1;
    assert extra in [extra];
    StaleSubtreeIsNeverServed(sha256, children, Some(regraded));
    StaleSubtreeIsNeverServed(sha256, children, Some(children + [extra]));
    StaleSubtreeIsNeverServed(sha256, children, Some(dropped));
  }

  // ------------------------------------------------------------------
  // Git tree hash
  // ------------------------------------------------------------------

  datatype File = File(path: seq<Byte>, content: seq<Byte>)

  function AsPairs(files: seq<File>): (pairs: seq<Pair>)
    ensures |pairs| == |files|
  {
    seq(|files|, i requires 0 <= i < |files| => (files[i].path, files[i].content))
  }

  function GitTreeHash(sha256: Hash, files: seq<File>): string {
    Sha256String(sha256, FramePairs(AsPairs(files)))
  }

  method ComputeGitTreeHash(sha256: Hash, files: seq<File>) returns (hash: string)
    ensures hash == GitTreeHash(sha256, files)
  {
    var fed := FeedPairs(AsPairs(files));
    return Sha256String(sha256, fed);
  }

  /** Two trees hash alike iff they hold the same files in the same order. */
  lemma GitTreeHashDeterminesTree(sha256: Hash, a: seq<File>, b: seq<File>)
    requires Injective(sha256) && Representable(AsPairs(a)) && Representable(AsPairs(b))
    ensures GitTreeHash(sha256, a) == GitTreeHash(sha256, b) <==> a == b
  {
    if GitTreeHash(sha256, a) == GitTreeHash(sha256, b) {
      Sha256StringInjective(sha256, FramePairs(AsPairs(a)), FramePairs(AsPairs(b)));
      FramePairsInjective(AsPairs(a), AsPairs(b));
      forall i | 0 <= i < |a| ensures a[i] == b[i] {
        assert AsPairs(a)[i] == AsPairs(b)[i];
      }
    }
  }
}
