/** The edit distance between package names: the two rows that are filled in turn hold the
    least number of single-character edits. */
module EditDistance {

  // ------------------------------------------------------------------
  // Edits
  // ------------------------------------------------------------------

  /** At position `i`: `c` inserted, a character removed, or one replaced by `c`. */
  predicate EditAt(a: string, b: string, i: nat, c: char) {
    (i <= |a| && b == a[..i] + [c] + a[i..])
    || (i < |a| && (b == a[..i] + a[i + 1..] || b == a[..i] + [c] + a[i + 1..]))
  }

  ghost predicate OneEdit(a: string, b: string) {
    exists i: nat, c: char :: EditAt(a, b, i, c)
  }

  /** `k` single-character edits lead from `a` to `b`. */
  ghost predicate Edits(a: string, b: string, k: nat)
    decreases k
  {
    if k == 0 then a == b else exists m :: OneEdit(m, b) && Edits(a, m, k - 1)
  }

  // ------------------------------------------------------------------
  // The table
  // ------------------------------------------------------------------

  function Min(x: nat, y: nat): nat {
    if x < y then x else y
  }

  function Cost(x: char, y: char): nat {
    if x == y then 0 else 1
  }

  /** The entry of the table at two prefixes. */
  function Dist(a: string, b: string): nat
    decreases |a| + |b|, 1
  {
    if a == [] then |b| else if b == [] then |a| else Inner(a, b)
  }

  function Inner(a: string, b: string): nat
    requires a != [] && b != []
    decreases |a| + |b|, 0
  {
    var (p, q) := (a[..|a| - 1], b[..|b| - 1]);
    Min(Min(Dist(p, b) + 1, Dist(a, q) + 1), Dist(p, q) + Cost(a[|a| - 1], b[|b| - 1]))
  }

  lemma {:induction false} DistLast(a: string, b: string, p: string, x: char, q: string, y: char)
    requires a != [] && b != [] && p == a[..|a| - 1] && q == b[..|b| - 1] && x == a[|a| - 1] && y == b[|b| - 1]
    ensures Dist(a, b) == Min(Min(Dist(p, b) + 1, Dist(a, q) + 1), Dist(p, q) + Cost(x, y))
  {}

  lemma {:induction false} DistPush(p: string, x: char, q: string, y: char)
    ensures Dist(p + [x], q + [y]) == Min(Min(Dist(p, q + [y]) + 1, Dist(p + [x], q) + 1), Dist(p, q) + Cost(x, y))
  {
    var (a, b) := (p + [x], q + [y]);
    assert a[..|a| - 1] == p && b[..|b| - 1] == q && a[|a| - 1] == x && b[|b| - 1] == y;
    DistLast(a, b, p, x, q, y);
  }

  // ------------------------------------------------------------------
  // The entry can be reached
  // ------------------------------------------------------------------

  lemma {:induction false} Then(a: string, b: string, c: string, j: nat, k: nat)
    requires Edits(a, b, j) && Edits(b, c, k)
    ensures Edits(a, c, j + k)
    decreases k
  {
    if k > 0 {
      var m :| OneEdit(m, c) && Edits(b, m, k - 1);
      Then(a, b, m, j, k - 1);
    }
  }

  lemma {:induction false} Once(a: string, b: string, i: nat, c: char)
    requires EditAt(a, b, i, c)
    ensures Edits(a, b, 1)
  {
    assert OneEdit(a, b) && Edits(a, a, 0);
  }

  lemma {:induction false} Appended(a: string, x: char)
    ensures Edits(a, a + [x], 1)
  {
    assert a + [x] == a[..|a|] + [x] + a[|a|..];
    Once(a, a + [x], |a|, x);
  }

  lemma {:induction false} Removed(a: string, x: char)
    ensures Edits(a + [x], a, 1)
  {
    assert a == (a + [x])[..|a|] + (a + [x])[|a| + 1..];
    Once(a + [x], a, |a|, x);
  }

  lemma {:induction false} Replaced(a: string, x: char, y: char)
    ensures Edits(a + [x], a + [y], Cost(x, y))
  {
    if x != y {
      assert a + [y] == (a + [x])[..|a|] + [y] + (a + [x])[|a| + 1..];
      Once(a + [x], a + [y], |a|, y);
    }
  }

  lemma {:induction false} EditLifts(a: string, b: string, i: nat, c: char, x: char)
    requires EditAt(a, b, i, c)
    ensures EditAt(a + [x], b + [x], i, c)
  {
    var s := a + [x];
    assert s[..i] == a[..i] && s[i..] == a[i..] + [x];
    if i < |a| {
      assert s[i + 1..] == a[i + 1..] + [x];
    }
  }

  lemma {:induction false} EditsLift(a: string, b: string, k: nat, x: char)
    requires Edits(a, b, k)
    ensures Edits(a + [x], b + [x], k)
    decreases k
  {
    if k > 0 {
      var m :| OneEdit(m, b) && Edits(a, m, k - 1);
      var i, c :| EditAt(m, b, i, c);
      EditLifts(m, b, i, c, x);
      EditsLift(a, m, k - 1, x);
      assert OneEdit(m + [x], b + [x]);
    }
  }

  lemma {:induction false} ViaRemoved(p: string, x: char, b: string, k: nat)
    requires Edits(p, b, k)
    ensures Edits(p + [x], b, k + 1)
  {
    Removed(p, x);
    Then(p + [x], p, b, 1, k);
  }

  lemma {:induction false} ViaAppended(a: string, q: string, y: char, k: nat)
    requires Edits(a, q, k)
    ensures Edits(a, q + [y], k + 1)
  {
    Appended(q, y);
    Then(a, q, q + [y], k, 1);
  }

  lemma {:induction false} ViaReplaced(p: string, x: char, q: string, y: char, k: nat)
    requires Edits(p, q, k)
    ensures Edits(p + [x], q + [y], k + Cost(x, y))
  {
    EditsLift(p, q, k, x);
    Replaced(q, x, y);
    Then(p + [x], q + [x], q + [y], k, Cost(x, y));
  }

  lemma {:induction false} ReachedPush(p: string, x: char, q: string, y: char, k: nat, l: nat, n: nat, d: nat)
    requires Edits(p, q + [y], k) && Edits(p + [x], q, l) && Edits(p, q, n)
    requires d == k + 1 || d == l + 1 || d == n + Cost(x, y)
    ensures Edits(p + [x], q + [y], d)
  {
    if d == k + 1 {
      ViaRemoved(p, x, q + [y], k);
    } else if d == l + 1 {
      ViaAppended(p + [x], q, y, l);
    } else {
      ViaReplaced(p, x, q, y, n);
    }
  }

  lemma {:induction false} ReachedStep(a: string, b: string, p: string, q: string)
    requires a != [] && b != [] && p == a[..|a| - 1] && q == b[..|b| - 1]
    requires Edits(p, b, Dist(p, b)) && Edits(a, q, Dist(a, q)) && Edits(p, q, Dist(p, q))
    ensures Edits(a, b, Dist(a, b))
  {
    var (x, y) := (a[|a| - 1], b[|b| - 1]);
    assert a == p + [x] && b == q + [y];
    DistLast(a, b, p, x, q, y);
    ReachedPush(p, x, q, y, Dist(p, b), Dist(a, q), Dist(p, q), Dist(a, b));
  }

  lemma {:induction false} Reached(a: string, b: string)
    ensures Edits(a, b, Dist(a, b))
    decreases |a| + |b|
  {
    if a == [] && b == [] {
    } else if a == [] {
      var (q, y) := (b[..|b| - 1], b[|b| - 1]);
      assert b == q + [y];
      Reached(a, q);
      ViaAppended(a, q, y, |q|);
    } else if b == [] {
      var (p, x) := (a[..|a| - 1], a[|a| - 1]);
      assert a == p + [x];
      Reached(p, b);
      ViaRemoved(p, x, b, |p|);
    } else {
      Reached(a[..|a| - 1], b);
      Reached(a, b[..|b| - 1]);
      Reached(a[..|a| - 1], b[..|b| - 1]);
      ReachedStep(a, b, a[..|a| - 1], b[..|b| - 1]);
    }
  }

  // ------------------------------------------------------------------
  // Nothing shorter reaches it
  // ------------------------------------------------------------------

  /** From every start, `b` is at most one edit further than `m`. */
  ghost predicate Near(m: string, b: string) {
    forall a :: Dist(a, b) <= Dist(a, m) + 1
  }

  lemma {:induction false} AppendedAt(a: string, m: string, x: char)
    ensures Dist(a, m + [x]) <= Dist(a, m) + 1
  {
    if a != [] {
      var (p, y) := (a[..|a| - 1], a[|a| - 1]);
      assert a == p + [y];
      DistPush(p, y, m, x);
    }
  }

  lemma {:induction false} RemovedAt(a: string, m: string, x: char)
    ensures Dist(a, m) <= Dist(a, m + [x]) + 1
    decreases |a|
  {
    if a != [] {
      var (p, y) := (a[..|a| - 1], a[|a| - 1]);
      assert a == p + [y];
      DistPush(p, y, m, x);
      RemovedAt(p, m, x);
      GrowsByOne(p, y, m);
    }
  }

  lemma {:induction false} GrowsByOne(p: string, y: char, m: string)
    ensures Dist(p + [y], m) <= Dist(p, m) + 1
  {
    if m != [] {
      var n := |m| - 1;
      assert m == m[..n] + [m[n]];
      DistPush(p, y, m[..n], m[n]);
    } else {
      assert Dist(p + [y], m) == |p| + 1;
    }
  }

  lemma {:induction false} ReplacedAt(a: string, m: string, x: char, z: char)
    ensures Dist(a, m + [z]) <= Dist(a, m + [x]) + 1
    decreases |a|
  {
    if a != [] {
      var (p, y) := (a[..|a| - 1], a[|a| - 1]);
      assert a == p + [y];
      DistPush(p, y, m, x);
      DistPush(p, y, m, z);
      ReplacedAt(p, m, x, z);
    }
  }

  lemma {:induction false} NearPushStep(p: string, y: char, m: string, b: string, x: char)
    requires Dist(p, b) <= Dist(p, m) + 1 && Dist(p + [y], b) <= Dist(p + [y], m) + 1
    requires Dist(p, b + [x]) <= Dist(p, m + [x]) + 1
    ensures Dist(p + [y], b + [x]) <= Dist(p + [y], m + [x]) + 1
  {
    DistPush(p, y, m, x);
    DistPush(p, y, b, x);
  }

  lemma {:induction false} NearPushAt(a: string, m: string, b: string, x: char)
    requires Near(m, b)
    ensures Dist(a, b + [x]) <= Dist(a, m + [x]) + 1
    decreases |a|
  {
    assert Dist(a, b) <= Dist(a, m) + 1;
    if a != [] {
      var (p, y) := (a[..|a| - 1], a[|a| - 1]);
      assert a == p + [y] && Dist(p, b) <= Dist(p, m) + 1;
      NearPushAt(p, m, b, x);
      NearPushStep(p, y, m, b, x);
    }
  }

  lemma {:induction false} NearUnder(m: string, b: string, s: string)
    requires Near(m, b)
    ensures Near(m + s, b + s)
    decreases |s|
  {
    if s == [] {
      assert m + s == m && b + s == b;
    } else {
      var (t, x) := (s[..|s| - 1], s[|s| - 1]);
      NearUnder(m, b, t);
      forall a ensures Dist(a, (b + t) + [x]) <= Dist(a, (m + t) + [x]) + 1 {
        NearPushAt(a, m + t, b + t, x);
      }
      assert s == t + [x];
      assert m + s == (m + t) + [x] && b + s == (b + t) + [x];
    }
  }

  lemma {:induction false} EditIsNear(m: string, b: string, i: nat, c: char)
    requires EditAt(m, b, i, c)
    ensures Near(m, b)
  {
    var p := m[..if i < |m| then i else |m|];
    if i <= |m| && b == p + [c] + m[i..] {
      forall a ensures Dist(a, p + [c]) <= Dist(a, p) + 1 { AppendedAt(a, p, c); }
      NearUnder(p, p + [c], m[i..]);
      assert m == p + m[i..];
    } else {
      var (x, s) := (m[i], m[i + 1..]);
      assert m == (p + [x]) + s;
      if b == p + s {
        forall a ensures Dist(a, p) <= Dist(a, p + [x]) + 1 { RemovedAt(a, p, x); }
        NearUnder(p + [x], p, s);
      } else {
        forall a ensures Dist(a, p + [c]) <= Dist(a, p + [x]) + 1 { ReplacedAt(a, p, x, c); }
        NearUnder(p + [x], p + [c], s);
      }
    }
  }

  lemma {:induction false} DistSelf(a: string)
    ensures Dist(a, a) == 0
  {
    if a != [] {
      var n := |a| - 1;
      DistSelf(a[..n]);
      assert a == a[..n] + [a[n]];
      DistPush(a[..n], a[n], a[..n], a[n]);
    }
  }

  lemma {:induction false} NoFewer(a: string, b: string, k: nat)
    requires Edits(a, b, k)
    ensures Dist(a, b) <= k
    decreases k
  {
    if k == 0 {
      DistSelf(a);
    } else {
      var m :| OneEdit(m, b) && Edits(a, m, k - 1);
      var i, c :| EditAt(m, b, i, c);
      EditIsNear(m, b, i, c);
      NoFewer(a, m, k - 1);
      assert Dist(a, b) <= Dist(a, m) + 1;
    }
  }

  /** The least number of edits, whichever edits and in whichever order. */
  ghost predicate IsLeast(a: string, b: string, k: nat) {
    Edits(a, b, k) && forall j | Edits(a, b, j) :: k <= j
  }

  lemma {:induction false} DistanceIsLeast(a: string, b: string)
    ensures IsLeast(a, b, Dist(a, b))
  {
    Reached(a, b);
    forall j | Edits(a, b, j) ensures Dist(a, b) <= j {
      NoFewer(a, b, j);
    }
  }

  // ------------------------------------------------------------------
  // The two rows
  // ------------------------------------------------------------------

  const MaxNameChars := 256
  /** The largest 64-bit count stands for names that are not compared. */
  const Overlong := 0xFFFF_FFFF_FFFF_FFFF

  /** Row and column of the table by the lengths of the prefixes. */
  function Entry(a: string, b: string, i: nat, j: nat): (d: nat)
    requires i <= |a| && j <= |b|
  {
    Dist(a[..i], b[..j])
  }

  lemma Edges(a: string, b: string)
    ensures forall j | 0 <= j <= |b| :: Entry(a, b, 0, j) == j
    ensures forall i | 0 <= i <= |a| :: Entry(a, b, i, 0) == i
    ensures Entry(a, b, |a|, |b|) == Dist(a, b)
  {
    assert a[..|a|] == a && b[..|b|] == b;
  }

  lemma {:induction false} Next(a: string, b: string, i: nat, j: nat)
    requires 0 < i <= |a| && 0 < j <= |b|
    ensures Entry(a, b, i, j)
         == Min(Min(Entry(a, b, i - 1, j) + 1, Entry(a, b, i, j - 1) + 1), Entry(a, b, i - 1, j - 1) + Cost(a[i - 1], b[j - 1]))
  {
    var (s, t, p, q) := (a[..i], b[..j], a[..i - 1], b[..j - 1]);
    assert s[..i - 1] == p && t[..j - 1] == q;
    DistLast(s, t, p, a[i - 1], q, b[j - 1]);
  }

  method Levenshtein(a: string, b: string) returns (d: nat)
    ensures |a| > MaxNameChars || |b| > MaxNameChars ==> d == Overlong
    ensures |a| <= MaxNameChars && |b| <= MaxNameChars ==> d == Dist(a, b) && IsLeast(a, b, d)
  {
    if |a| > MaxNameChars || |b| > MaxNameChars { return Overlong; }
    DistanceIsLeast(a, b);
    if |a| == 0 { return |b|; }
    if |b| == 0 { return |a|; }
    var prev, curr := new nat[|b| + 1](i => i), new nat[|b| + 1](_ => 0);
    Edges(a, b);
    for i := 1 to |a| + 1
      invariant prev != curr && fresh(prev) && fresh(curr) && prev.Length == curr.Length == |b| + 1
      invariant forall j | 0 <= j <= |b| :: prev[j] == Entry(a, b, i - 1, j)
    {
      curr[0] := i;
      for j := 1 to |b| + 1
        invariant forall l | 0 <= l <= |b| :: prev[l] == Entry(a, b, i - 1, l)
        invariant forall l | 0 <= l < j :: curr[l] == Entry(a, b, i, l)
      {
        var cost := if a[i - 1] == b[j - 1] then 0 else 1;
        Next(a, b, i, j);
        curr[j] := Min(Min(prev[j] + 1, curr[j - 1] + 1), prev[j - 1] + cost);
      }
      prev, curr := curr, prev;
    }
    return prev[|b|];
  }
}
