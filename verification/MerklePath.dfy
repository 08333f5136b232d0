/** Inclusion proofs of a transparency log: the bottom-up check of an audit path against
    the tree it comes from (RFC 6962, section 2.1). `node` hashes two child digests. */
module MerklePath {
  // ------------------------------------------------------------------
  // Trees and audit paths
  // ------------------------------------------------------------------

  function Pow2(h: nat): (p: nat)
    ensures p >= 1
  {
    if h == 0 then 1 else 2 * Pow2(h - 1)
  }

  /** The height of the left subtree: the largest power of two below `n` has this exponent. */
  function SplitHeight(n: nat): (h: nat)
    requires n >= 2
    ensures Pow2(h) < n <= 2 * Pow2(h)
  {
    if n == 2 then 0 else 1 + SplitHeight((n + 1) / 2)
  }

  function Split(n: nat): (k: nat)
    requires n >= 2
    ensures 0 < k < n <= 2 * k
  {
    Pow2(SplitHeight(n))
  }

  /** The head of a tree over its leaf digests. */
  function TreeHead<D>(node: (D, D) -> D, leaves: seq<D>): D
    requires leaves != []
    decreases |leaves|, 1
  {
    if |leaves| == 1 then leaves[0] else Joined(node, leaves, Split(|leaves|))
  }

  function Joined<D>(node: (D, D) -> D, leaves: seq<D>, k: nat): D
    requires 0 < k < |leaves|
    decreases |leaves|, 0
  {
    node(TreeHead(node, leaves[..k]), TreeHead(node, leaves[k..]))
  }

  /** The sibling heads from a leaf up to the root. */
  function AuditPath<D>(node: (D, D) -> D, m: nat, leaves: seq<D>): seq<D>
    requires m < |leaves|
    decreases |leaves|, 1
  {
    if |leaves| == 1 then [] else Beside(node, m, leaves, Split(|leaves|))
  }

  function Beside<D>(node: (D, D) -> D, m: nat, leaves: seq<D>, k: nat): seq<D>
    requires m < |leaves| && 0 < k < |leaves|
    decreases |leaves|, 0
  {
    if m < k then AuditPath(node, m, leaves[..k]) + [TreeHead(node, leaves[k..])]
    else AuditPath(node, m - k, leaves[k..]) + [TreeHead(node, leaves[..k])]
  }

  // ------------------------------------------------------------------
  // The check
  // ------------------------------------------------------------------

  datatype Outcome = Included | ZeroSize | OutOfRange | TooLong | TooShort | Mismatch

  /** Both counters shifted until the first is odd or zero. */
  function Strip(fan: nat, sn: nat): (r: (nat, nat))
    ensures fan != 0 ==> r.0 % 2 == 1
    ensures fan <= sn ==> r.0 <= r.1
    ensures r.1 <= sn
    decreases fan
  {
    if fan % 2 == 0 && fan != 0 then Strip(fan / 2, sn / 2) else (fan, sn)
  }

  /** Whether the sibling is on the left, and the counters one level up. */
  predicate FromLeft(fan: nat, sn: nat) {
    fan % 2 == 1 || fan == sn
  }

  function Up(fan: nat, sn: nat): (r: (nat, nat))
    ensures sn > 0 ==> r.1 < sn
    ensures fan <= sn ==> r.0 <= r.1
  {
    var (f, s) := if FromLeft(fan, sn) then Strip(fan, sn) else (fan, sn);
    (f / 2, s / 2)
  }

  /** From the leaf up to the root: on which levels the sibling is on the left. */
  function Turns(fan: nat, sn: nat): seq<bool>
    decreases sn, 1
  {
    if sn == 0 then [] else TurnsFrom(fan, sn)
  }

  function TurnsFrom(fan: nat, sn: nat): seq<bool>
    requires sn != 0
    decreases sn, 0
  {
    [FromLeft(fan, sn)] + Turns(Up(fan, sn).0, Up(fan, sn).1)
  }

  function Turn<D>(node: (D, D) -> D, left: bool, r: D, sibling: D): D {
    if left then node(sibling, r) else node(r, sibling)
  }

  /** The head reached from a digest along a path. */
  function Rise<D>(node: (D, D) -> D, turns: seq<bool>, r: D, path: seq<D>): D
    requires |turns| == |path|
    decreases |path|
  {
    if path == [] then r
    else
      var n := |path| - 1;
      Turn(node, turns[n], Rise(node, turns[..n], r, path[..n]), path[n])
  }

  function Verified<D(==)>(node: (D, D) -> D, index: nat, size: nat, leaf: D, path: seq<D>, root: D): Outcome {
    if size == 0 then ZeroSize
    else if index >= size then OutOfRange
    else
      var turns := Turns(index, size - 1);
      if |path| > |turns| then TooLong
      else if |path| < |turns| then TooShort
      else if Rise(node, turns, leaf, path) == root then Included
      else Mismatch
  }

  lemma {:induction false} RisePush<D>(node: (D, D) -> D, turns: seq<bool>, r: D, path: seq<D>, left: bool, p: D)
    requires |turns| == |path|
    ensures Rise(node, turns + [left], r, path + [p]) == Turn(node, left, Rise(node, turns, r, path), p)
  {
    assert (path + [p])[..|path|] == path && (turns + [left])[..|path|] == turns;
  }

  /** One level up, of the turns and of the climb. */
  lemma {:induction false} RiseNext<D>(node: (D, D) -> D, turns: seq<bool>, done: seq<bool>, fan: nat, sn: nat, leaf: D, path: seq<D>, i: nat)
    requires i == |done| < |path| && sn != 0 && turns == done + Turns(fan, sn)
    ensures turns == (done + [FromLeft(fan, sn)]) + Turns(Up(fan, sn).0, Up(fan, sn).1)
    ensures Rise(node, done + [FromLeft(fan, sn)], leaf, path[..i + 1])
         == Turn(node, FromLeft(fan, sn), Rise(node, done, leaf, path[..i]), path[i])
  {
    var left := [FromLeft(fan, sn)];
    assert done + (left + Turns(Up(fan, sn).0, Up(fan, sn).1)) == (done + left) + Turns(Up(fan, sn).0, Up(fan, sn).1);
    assert path[..i + 1] == path[..i] + [path[i]];
    RisePush(node, done, leaf, path[..i], FromLeft(fan, sn), path[i]);
  }

  method VerifyMerklePath<D(==)>(node: (D, D) -> D, leafIndex: nat, treeSize: nat, leafHash: D, path: seq<D>, rootHash: D)
    returns (outcome: Outcome)
    ensures outcome == Verified(node, leafIndex, treeSize, leafHash, path, rootHash)
  {
    if treeSize == 0 { return ZeroSize; }
    if leafIndex >= treeSize { return OutOfRange; }
    var fan: nat, sn: nat := leafIndex, treeSize - 1;
    var r := leafHash;
    ghost var done: seq<bool> := [];
    for i := 0 to |path|
      invariant |done| == i && Turns(leafIndex, treeSize - 1) == done + Turns(fan, sn)
      invariant r == Rise(node, done, leafHash, path[..i])
    {
      if sn == 0 { return TooLong; }
      ghost var (f, s) := (fan, sn);
      RiseNext(node, Turns(leafIndex, treeSize - 1), done, f, s, leafHash, path, i);
      if fan % 2 != 0 || fan == sn {
        r := node(path[i], r);
        while fan % 2 == 0 && fan != 0
          invariant Strip(f, s) == Strip(fan, sn)
          decreases fan
        {
          fan, sn := fan / 2, sn / 2;
        }
      } else {
        r := node(r, path[i]);
      }
      fan, sn := fan / 2, sn / 2;
      assert Up(f, s) == (fan, sn);
      done := done + [FromLeft(f, s)];
    }
    assert path[..|path|] == path;
    if sn != 0 { return TooShort; }
    assert done + Turns(fan, sn) == done;
    return if r == rootHash then Included else Mismatch;
  }

  // ------------------------------------------------------------------
  // Every leaf's path verifies
  // ------------------------------------------------------------------

  lemma {:induction false} ConsSnoc(l: bool, t: seq<bool>, last: bool)
    ensures [l] + (t + [last]) == ([l] + t) + [last]
  {}

  lemma {:induction false} PowStep(h: nat)
    requires h > 0
    ensures Pow2(h) == 2 * Pow2(h - 1)
  {}

  lemma {:induction false} UpLeft(h: nat, fan: nat, sn: nat)
    requires h > 0 && fan < Pow2(h) <= sn < 2 * Pow2(h)
    ensures fan / 2 < Pow2(h - 1) <= sn / 2 < 2 * Pow2(h - 1)
    ensures Up(fan, sn) == (fan / 2, sn / 2) && FromLeft(fan, sn) == (fan % 2 == 1)
    ensures Up(fan, Pow2(h) - 1) == (fan / 2, Pow2(h - 1) - 1) && FromLeft(fan, Pow2(h) - 1) == (fan % 2 == 1)
  {
    PowStep(h);
  }

  /** In a full left subtree the counters turn as those of the whole tree do until the last
      level, where the sibling is the right subtree. */
  lemma {:induction false} LeftSubtree(h: nat, fan: nat, sn: nat)
    requires fan < Pow2(h) <= sn < 2 * Pow2(h)
    ensures Turns(fan, sn) == Turns(fan, Pow2(h) - 1) + [false]
    decreases h
  {
    if h == 0 {
      assert Turns(0, 1) == [false];
    } else {
      UpLeft(h, fan, sn);
      LeftSubtree(h - 1, fan / 2, sn / 2);
      ConsSnoc(fan % 2 == 1, Turns(fan / 2, Pow2(h - 1) - 1), false);
    }
  }

  lemma {:induction false} StripPower(h: nat, s: nat)
    requires s == Pow2(h)
    ensures Strip(s, s) == (1, 1)
    decreases h
  {
    if h > 0 {
      StripPower(h - 1, s / 2);
    }
  }

  /** Adding a power of two above both counters changes no lower bit. */
  lemma {:induction false} StripShifts(h: nat, n: nat) returns (t: nat)
    requires 0 < n < Pow2(h)
    ensures t < h && Strip(n, n).0 == Strip(n, n).1 < Pow2(h - t)
    ensures Strip(n + Pow2(h), n + Pow2(h)) == (Strip(n, n).0 + Pow2(h - t), Strip(n, n).1 + Pow2(h - t))
    decreases h
  {
    if n % 2 == 0 {
      t := StripShifts(h - 1, n / 2);
      assert (n + Pow2(h)) / 2 == n / 2 + Pow2(h - 1);
      t := t + 1;
    } else {
      t := 0;
      if h > 0 { assert Pow2(h) == 2 * Pow2(h - 1); }
    }
  }

  lemma {:induction false} HalfShifts(g: nat, n: nat)
    requires n < 2 * Pow2(g)
    ensures n / 2 < Pow2(g) && (n + 2 * Pow2(g)) / 2 == n / 2 + Pow2(g)
    ensures (n + 2 * Pow2(g)) % 2 == n % 2
  {}

  lemma {:induction false} UpPlain(h: nat, fan: nat, sn: nat)
    requires h > 0 && fan <= sn < Pow2(h) && sn != 0 && !(fan == sn && fan % 2 == 0)
    ensures Up(fan, sn) == (fan / 2, sn / 2)
    ensures Up(fan + Pow2(h), sn + Pow2(h)) == (fan / 2 + Pow2(h - 1), sn / 2 + Pow2(h - 1))
    ensures FromLeft(fan + Pow2(h), sn + Pow2(h)) == FromLeft(fan, sn) && sn / 2 < Pow2(h - 1)
  {
    PowStep(h);
    HalfShifts(h - 1, fan);
    HalfShifts(h - 1, sn);
  }

  lemma {:induction false} UpEdge(h: nat, n: nat) returns (g: nat)
    requires 0 < n < Pow2(h)
    ensures g < h && Up(n, n).1 < Pow2(g)
    ensures Up(n + Pow2(h), n + Pow2(h)) == (Up(n, n).0 + Pow2(g), Up(n, n).1 + Pow2(g))
  {
    var t := StripShifts(h, n);
    g := h - t - 1;
    PowStep(h - t);
    HalfShifts(g, Strip(n, n).0);
  }

  /** One level up in a right subtree. */
  lemma {:induction false} UpShifts(h: nat, fan: nat, sn: nat) returns (g: nat)
    requires fan <= sn < Pow2(h) && sn != 0
    ensures g < h && Up(fan, sn).1 < Pow2(g)
    ensures Up(fan + Pow2(h), sn + Pow2(h)) == (Up(fan, sn).0 + Pow2(g), Up(fan, sn).1 + Pow2(g))
    ensures FromLeft(fan + Pow2(h), sn + Pow2(h)) == FromLeft(fan, sn)
  {
    if fan == sn && fan % 2 == 0 {
      g := UpEdge(h, fan);
    } else {
      UpPlain(h, fan, sn);
      g := h - 1;
    }
  }

  ghost predicate TurnsRight(h: nat, fan: nat, sn: nat) {
    Turns(fan + Pow2(h), sn + Pow2(h)) == Turns(fan, sn) + [true]
  }

  lemma {:induction false} TurnsRightEnd(h: nat)
    ensures TurnsRight(h, 0, 0)
  {
    StripPower(h, Pow2(h));
    assert Up(Pow2(h), Pow2(h)) == (0, 0);
  }

  lemma {:induction false} TurnsRightStep(h: nat, fan: nat, sn: nat) returns (g: nat, f: nat, s: nat)
    requires fan <= sn < Pow2(h) && sn != 0
    ensures f <= s < Pow2(g) && s < sn
    ensures TurnsRight(g, f, s) ==> TurnsRight(h, fan, sn)
  {
    g := UpShifts(h, fan, sn);
    f, s := Up(fan, sn).0, Up(fan, sn).1;
    ConsSnoc(FromLeft(fan, sn), Turns(f, s), true);
  }

  /** In a right subtree the counters turn as those of the whole tree do until the last
      level, where the sibling is the left subtree. */
  lemma {:induction false} RightSubtree(h: nat, fan: nat, sn: nat)
    requires fan <= sn < Pow2(h)
    ensures TurnsRight(h, fan, sn)
    decreases sn
  {
    if sn == 0 {
      TurnsRightEnd(h);
    } else {
      var g, f, s := TurnsRightStep(h, fan, sn);
      RightSubtree(g, f, s);
    }
  }

  lemma {:induction false} TurnsSplit(n: nat, k: nat, m: nat)
    requires m < n && n >= 2 && k == Split(n)
    ensures m < k ==> Turns(m, n - 1) == Turns(m, k - 1) + [false]
    ensures m >= k ==> Turns(m, n - 1) == Turns(m - k, n - k - 1) + [true]
  {
    if m < k {
      LeftSubtree(SplitHeight(n), m, n - 1);
    } else {
      RightSubtree(SplitHeight(n), m - k, n - k - 1);
    }
  }

  /** Climbing the audit path of a leaf gives the head of the tree. */
  ghost predicate Climbs<D>(node: (D, D) -> D, m: nat, leaves: seq<D>)
    requires m < |leaves|
  {
    var (turns, path) := (Turns(m, |leaves| - 1), AuditPath(node, m, leaves));
    |turns| == |path| && Rise(node, turns, leaves[m], path) == TreeHead(node, leaves)
  }

  lemma {:induction false} HeadSplits<D>(node: (D, D) -> D, leaves: seq<D>, k: nat, left: seq<D>, right: seq<D>)
    requires |leaves| > 1 && k == Split(|leaves|) && left == leaves[..k] && right == leaves[k..]
    ensures TreeHead(node, leaves) == node(TreeHead(node, left), TreeHead(node, right))
  {}

  lemma {:induction false} PathSplits<D>(node: (D, D) -> D, m: nat, leaves: seq<D>, k: nat, left: seq<D>, right: seq<D>)
    requires |leaves| > 1 && k == Split(|leaves|) && left == leaves[..k] && right == leaves[k..] && m < |leaves|
    ensures m < k ==> leaves[m] == left[m] && AuditPath(node, m, leaves) == AuditPath(node, m, left) + [TreeHead(node, right)]
    ensures m >= k ==>
              leaves[m] == right[m - k] && AuditPath(node, m, leaves) == AuditPath(node, m - k, right) + [TreeHead(node, left)]
  {}

  /** Leaf `m` is leaf `i` of this half, whose sibling is on the left or not. */
  ghost predicate PartOf<D>(node: (D, D) -> D, m: nat, leaves: seq<D>, i: nat, part: seq<D>, left: bool, sibling: D)
    requires m < |leaves|
  {
    && i < |part| < |leaves| && part[i] == leaves[m]
    && Turns(m, |leaves| - 1) == Turns(i, |part| - 1) + [left]
    && AuditPath(node, m, leaves) == AuditPath(node, i, part) + [sibling]
    && TreeHead(node, leaves) == Turn(node, left, TreeHead(node, part), sibling)
  }

  lemma {:induction false} LeftPart<D>(node: (D, D) -> D, m: nat, leaves: seq<D>, k: nat, left: seq<D>, right: seq<D>)
    requires |leaves| > 1 && k == Split(|leaves|) && left == leaves[..k] && right == leaves[k..] && m < k
    ensures PartOf(node, m, leaves, m, left, false, TreeHead(node, right))
  {
    HeadSplits(node, leaves, k, left, right);
    PathSplits(node, m, leaves, k, left, right);
    TurnsSplit(|leaves|, k, m);
  }

  lemma {:induction false} RightPart<D>(node: (D, D) -> D, m: nat, leaves: seq<D>, k: nat, left: seq<D>, right: seq<D>)
    requires |leaves| > 1 && k == Split(|leaves|) && left == leaves[..k] && right == leaves[k..] && k <= m < |leaves|
    ensures PartOf(node, m, leaves, m - k, right, true, TreeHead(node, left))
  {
    HeadSplits(node, leaves, k, left, right);
    PathSplits(node, m, leaves, k, left, right);
    TurnsSplit(|leaves|, k, m);
  }

  lemma {:induction false} Half<D>(node: (D, D) -> D, m: nat, leaves: seq<D>) returns (i: nat, part: seq<D>, left: bool, sibling: D)
    requires |leaves| > 1 && m < |leaves|
    ensures PartOf(node, m, leaves, i, part, left, sibling)
  {
    var k := Split(|leaves|);
    if m < k {
      i, part, left, sibling := m, leaves[..k], false, TreeHead(node, leaves[k..]);
      LeftPart(node, m, leaves, k, leaves[..k], leaves[k..]);
    } else {
      i, part, left, sibling := m - k, leaves[k..], true, TreeHead(node, leaves[..k]);
      RightPart(node, m, leaves, k, leaves[..k], leaves[k..]);
    }
  }

  /** From a half to the whole. */
  lemma {:induction false} ClimbsOver<D>(node: (D, D) -> D, m: nat, leaves: seq<D>, i: nat, part: seq<D>, left: bool, sibling: D)
    requires m < |leaves| && PartOf(node, m, leaves, i, part, left, sibling) && Climbs(node, i, part)
    ensures Climbs(node, m, leaves)
  {
    RisePush(node, Turns(i, |part| - 1), leaves[m], AuditPath(node, i, part), left, sibling);
  }

  lemma {:induction false} AuditPathClimbs<D>(node: (D, D) -> D, m: nat, leaves: seq<D>)
    requires m < |leaves|
    ensures Climbs(node, m, leaves)
    decreases |leaves|
  {
    if |leaves| > 1 {
      var i, part, left, sibling := Half(node, m, leaves);
      AuditPathClimbs(node, i, part);
      ClimbsOver(node, m, leaves, i, part, left, sibling);
    }
  }

  // ------------------------------------------------------------------
  // An accepted path fixes the leaf
  // ------------------------------------------------------------------

  ghost predicate Injective<D(!new)>(node: (D, D) -> D) {
    forall a, b, c, d :: node(a, b) == node(c, d) ==> a == c && b == d
  }

  /** For fixed turns the head determines the digest and the whole path. */
  lemma {:induction false} RiseInjective<D(!new)>(node: (D, D) -> D, turns: seq<bool>, r: D, path: seq<D>, s: D, other: seq<D>)
    requires Injective(node) && |turns| == |path| == |other|
    requires Rise(node, turns, r, path) == Rise(node, turns, s, other)
    ensures r == s && path == other
    decreases |path|
  {
    if path != [] {
      var n := |path| - 1;
      RiseInjective(node, turns[..n], r, path[..n], s, other[..n]);
      assert path == path[..n] + [path[n]] && other == other[..n] + [other[n]];
    }
  }

  /** For the size of the tree: a proof for an index is accepted iff the index is in range,
      and digest and path are that leaf's own; given that the node hash has no collisions. */
  lemma {:induction false} AcceptedIff<D(!new)>(node: (D, D) -> D, leaves: seq<D>, index: nat, leaf: D, path: seq<D>)
    requires Injective(node) && leaves != []
    ensures Verified(node, index, |leaves|, leaf, path, TreeHead(node, leaves)) == Included <==>
              index < |leaves| && leaf == leaves[index] && path == AuditPath(node, index, leaves)
  {
    if index < |leaves| {
      AuditPathClimbs(node, index, leaves);
      if Verified(node, index, |leaves|, leaf, path, TreeHead(node, leaves)) == Included {
        RiseInjective(node, Turns(index, |leaves| - 1), leaf, path, leaves[index], AuditPath(node, index, leaves));
      }
    }
  }

  /** A digest that is no pair's hash, as those of leaves are by their prefix. */
  ghost predicate IsLeafDigest<D(!new)>(node: (D, D) -> D, d: D) {
    forall a, b :: node(a, b) != d
  }

  lemma {:induction false} OfOneLeaf<D(!new)>(node: (D, D) -> D, turns: seq<bool>, leaf: D, path: seq<D>, only: D)
    requires IsLeafDigest(node, only) && |turns| == |path| && Rise(node, turns, leaf, path) == only
    ensures path == [] && turns == [] && leaf == only
  {
  }

  lemma {:induction false} LastTurn<D(!new)>(node: (D, D) -> D, turns: seq<bool>, leaf: D, path: seq<D>, a: D, b: D)
    requires Injective(node) && IsLeafDigest(node, leaf) && |turns| == |path|
    requires Rise(node, turns, leaf, path) == node(a, b)
    ensures path != []
    ensures var n := |path| - 1;
            path[n] == (if turns[n] then a else b) && Rise(node, turns[..n], leaf, path[..n]) == if turns[n] then b else a
  {
  }

  /** Down from the head: digests and sides that rise to it are some leaf's path. */
  lemma {:induction false} Descend<D(!new)>(node: (D, D) -> D, leaves: seq<D>, turns: seq<bool>, leaf: D, path: seq<D>)
    returns (m: nat)
    requires Injective(node) && IsLeafDigest(node, leaf) && leaves != [] && forall d :: d in leaves ==> IsLeafDigest(node, d)
    requires |turns| == |path| && Rise(node, turns, leaf, path) == TreeHead(node, leaves)
    ensures m < |leaves| && leaf == leaves[m] && path == AuditPath(node, m, leaves) && turns == Turns(m, |leaves| - 1)
    decreases |leaves|
  {
    if |leaves| == 1 {
      OfOneLeaf(node, turns, leaf, path, leaves[0]);
      m := 0;
    } else {
      var k := Split(|leaves|);
      var (left, right, n) := (leaves[..k], leaves[k..], |path| - 1);
      HeadSplits(node, leaves, k, left, right);
      LastTurn(node, turns, leaf, path, TreeHead(node, left), TreeHead(node, right));
      if turns[n] {
        var i := Descend(node, right, turns[..n], leaf, path[..n]);
        m := k + i;
        RightPart(node, m, leaves, k, left, right);
        Found(node, leaves, m, right, i, true, TreeHead(node, left), turns, leaf, path);
      } else {
        m := Descend(node, left, turns[..n], leaf, path[..n]);
        LeftPart(node, m, leaves, k, left, right);
        Found(node, leaves, m, left, m, false, TreeHead(node, right), turns, leaf, path);
      }
    }
  }

  lemma SnocIs<T>(s: seq<T>, init: seq<T>, last: T)
    requires s != [] && s[..|s| - 1] == init && s[|s| - 1] == last
    ensures s == init + [last]
  {
  }

  lemma {:induction false} Found<D>(node: (D, D) -> D, leaves: seq<D>, m: nat, part: seq<D>, i: nat, left: bool, sibling: D,
                 turns: seq<bool>, leaf: D, path: seq<D>)
    requires m < |leaves| && PartOf(node, m, leaves, i, part, left, sibling)
    requires |turns| == |path| > 0 && turns[|path| - 1] == left && path[|path| - 1] == sibling && leaf == part[i]
    requires path[..|path| - 1] == AuditPath(node, i, part) && turns[..|path| - 1] == Turns(i, |part| - 1)
    ensures leaf == leaves[m] && path == AuditPath(node, m, leaves) && turns == Turns(m, |leaves| - 1)
  {
    SnocIs(turns, Turns(i, |part| - 1), left);
    SnocIs(path, AuditPath(node, i, part), sibling);
  }

  /** The claimed position leads up the tree as this leaf's does. */
  predicate LeadsTo<D(==)>(node: (D, D) -> D, leaves: seq<D>, m: nat, index: nat, size: nat, leaf: D, path: seq<D>)
    requires size > 0
  {
    && m < |leaves| && leaf == leaves[m] && path == AuditPath(node, m, leaves)
    && Turns(index, size - 1) == Turns(m, |leaves| - 1)
  }

  /** The size is the proof's own claim. For every claimed index and size: a proof that a
      leaf digest is in a tree is accepted iff the index is below the size, and digest and
      path are those of some leaf that the sides of the claimed position lead to. */
  lemma {:induction false} AcceptedAtAnySizeIff<D(!new)>(node: (D, D) -> D, leaves: seq<D>, index: nat, size: nat, leaf: D, path: seq<D>)
    requires Injective(node) && IsLeafDigest(node, leaf) && leaves != [] && forall d :: d in leaves ==> IsLeafDigest(node, d)
    ensures Verified(node, index, size, leaf, path, TreeHead(node, leaves)) == Included <==>
              index < size && exists m :: LeadsTo(node, leaves, m, index, size, leaf, path)
  {
    if Verified(node, index, size, leaf, path, TreeHead(node, leaves)) == Included {
      var m := Descend(node, leaves, Turns(index, size - 1), leaf, path);
      assert LeadsTo(node, leaves, m, index, size, leaf, path);
    }
    if index < size {
      if m :| LeadsTo(node, leaves, m, index, size, leaf, path) {
        AuditPathClimbs(node, m, leaves);
      }
    }
  }

  /** In a tree of one size the sides fix the index. */
  lemma {:induction false} TurnsFixIndex(n: nat, i: nat, m: nat)
    requires i < n && m < n && Turns(i, n - 1) == Turns(m, n - 1)
    ensures i == m
    decreases n
  {
    if n > 1 {
      var k := Split(n);
      TurnsSplit(n, k, i);
      TurnsSplit(n, k, m);
      assert Turns(i, n - 1)[|Turns(i, n - 1)| - 1] == (i >= k);
      assert Turns(m, n - 1)[|Turns(m, n - 1)| - 1] == (m >= k);
      if i < k {
        SameInit(Turns(i, k - 1), Turns(m, k - 1), false);
        TurnsFixIndex(k, i, m);
      } else {
        SameInit(Turns(i - k, n - k - 1), Turns(m - k, n - k - 1), true);
        TurnsFixIndex(n - k, i - k, m - k);
      }
    }
  }

  lemma {:induction false} SameInit(a: seq<bool>, b: seq<bool>, last: bool)
    requires a + [last] == b + [last]
    ensures a == b
  {
    assert (a + [last])[..|a|] == a && (b + [last])[..|b|] == b;
  }

  /** So the size is not checked by the proof: in a tree of three leaves the first leaf's
      proof is accepted for a size of four, for every hash. */
  lemma {:induction false} OtherSizeIsAccepted<D>(node: (D, D) -> D, a: D, b: D, c: D)
    ensures Verified(node, 0, 3, a, [b, c], TreeHead(node, [a, b, c])) == Included
    ensures Verified(node, 0, 4, a, [b, c], TreeHead(node, [a, b, c])) == Included
  {
    SidesOfFirst();
    HeadOfThree(node, a, b, c);
    assert [b, c][..1] == [b] && [b][..0] == [] && [false, false][..1] == [false] && [false][..0] == [];
    assert Rise(node, [false], a, [b]) == node(a, b);
  }

  /** And without the prefix that tells leaves from pairs, an inner digest is accepted as a
      leaf, for a size of two. */
  lemma {:induction false} InnerDigestIsAccepted<D>(node: (D, D) -> D, a: D, b: D, c: D)
    ensures Verified(node, 0, 2, node(a, b), [c], TreeHead(node, [a, b, c])) == Included
  {
    SidesOfFirst();
    HeadOfThree(node, a, b, c);
    assert [c][..0] == [] && [false][..0] == [];
    assert Rise(node, [false], node(a, b), [c]) == node(Rise(node, [], node(a, b), []), c);
  }

  lemma {:induction false} SidesOfFirst()
    ensures Turns(0, 1) == [false] && Turns(0, 2) == [false, false] && Turns(0, 3) == [false, false]
  {
    assert Up(0, 3) == (0, 1) && Up(0, 2) == (0, 1) && Up(0, 1) == (0, 0);
    assert Turns(0, 1) == [false] + Turns(0, 0);
    assert Turns(0, 2) == [false] + Turns(0, 1) && Turns(0, 3) == [false] + Turns(0, 1);
  }

  lemma {:induction false} HeadOfThree<D>(node: (D, D) -> D, a: D, b: D, c: D)
    ensures TreeHead(node, [a, b, c]) == node(node(a, b), c)
  {
    var leaves := [a, b, c];
    assert Split(2) == 1 && Split(3) == 2;
    assert leaves[..2] == [a, b] && leaves[2..] == [c] && [a, b][..1] == [a] && [a, b][1..] == [b];
    HeadSplits(node, leaves, 2, [a, b], [c]);
    HeadSplits(node, [a, b], 1, [a], [b]);
  }

  /** No hypothesis on the hash: every leaf's own path is accepted. */
  lemma {:induction false} EveryLeafIsIncluded<D>(node: (D, D) -> D, leaves: seq<D>, index: nat)
    requires index < |leaves|
    ensures Verified(node, index, |leaves|, leaves[index], AuditPath(node, index, leaves), TreeHead(node, leaves)) == Included
  {
    AuditPathClimbs(node, index, leaves);
  }

  lemma {:induction false} RiseTake<D>(node: (D, D) -> D, turns: seq<bool>, r: D, path: seq<D>, i: nat)
    requires i < |turns| == |path|
    ensures Rise(node, turns[..i + 1], r, path[..i + 1]) == Turn(node, turns[i], Rise(node, turns[..i], r, path[..i]), path[i])
  {
    assert path[..i + 1] == path[..i] + [path[i]] && turns[..i + 1] == turns[..i] + [turns[i]];
    RisePush(node, turns[..i], r, path[..i], turns[i], path[i]);
  }

  /** For a hash that has collisions: from an accepted proof of anything but the leaf at its
      index, two different pairs with one hash are found along the two paths. */
  method FindCollision<D(==)>(node: (D, D) -> D, leaves: seq<D>, index: nat, leaf: D, path: seq<D>)
    returns (x: (D, D), y: (D, D))
    requires index < |leaves| && leaf != leaves[index]
    requires Verified(node, index, |leaves|, leaf, path, TreeHead(node, leaves)) == Included
    ensures x != y && node(x.0, x.1) == node(y.0, y.1)
  {
    AuditPathClimbs(node, index, leaves);
    var (own, turns) := (AuditPath(node, index, leaves), Turns(index, |leaves| - 1));
    var r, s, i := leaf, leaves[index], 0;
    assert path[..|path|] == path && own[..|own|] == own && turns[..|turns|] == turns;
    while i < |path|
      invariant r != s && i <= |path| == |own| == |turns|
      invariant r == Rise(node, turns[..i], leaf, path[..i])
      invariant s == Rise(node, turns[..i], leaves[index], own[..i])
      decreases |path| - i
    {
      RiseTake(node, turns, leaf, path, i);
      RiseTake(node, turns, leaves[index], own, i);
      x := if turns[i] then (path[i], r) else (r, path[i]);
      y := if turns[i] then (own[i], s) else (s, own[i]);
      if node(x.0, x.1) == node(y.0, y.1) { return; }
      r, s, i := node(x.0, x.1), node(y.0, y.1), i + 1;
    }
    assert false;
  }
}
