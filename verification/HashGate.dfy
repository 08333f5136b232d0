/** The content-hash trust gate of the verdict cache. */
module HashGate {
  import opened Text
  import opened Verdicts

  function LowerChar(c: char): char {
    if 'A' <= c <= 'Z' then (c as int + 32) as char else c
  }

  function Lower(s: string): (t: string)
    ensures |t| == |s|
  {
    seq(|s|, i requires 0 <= i < |s| => LowerChar(s[i]))
  }

  /** Lower-cases the algorithm of `<algo>:<hex>` and nothing else. */
  function NormalizeHashPrefix(hash: string): string {
    var i := IndexOf(hash, ':');
    if i == |hash| then hash else Lower(hash[..i]) + hash[i..]
  }

  predicate IsSha1(hash: string) {
    "sha1:" <= NormalizeHashPrefix(hash)
  }

  /** True to honor the cached verdict, false to re-verify. */
  predicate VerifyHash(cached: Option<string>, registry: Option<string>) {
    if cached == Some("") || registry == Some("") then false
    else if cached.Some? && IsSha1(cached.value) then false
    else cached.Some? && registry.Some? && NormalizeHashPrefix(cached.value) == NormalizeHashPrefix(registry.value)
  }

  /** A hash that can vouch for anything at all. */
  predicate Usable(hash: Option<string>) {
    hash.Some? && hash.value != "" && !IsSha1(hash.value)
  }

  lemma NormalizeKeepsLength(hash: string)
    ensures |NormalizeHashPrefix(hash)| == |hash|
  {
  }

  /** The gate is an equivalence on usable hashes and honors nothing else: a stored
      or published hash that is absent, empty or SHA-1 never vouches. */
  lemma GateIsEquivalence(a: Option<string>, b: Option<string>, c: Option<string>)
    ensures VerifyHash(a, a) <==> Usable(a)
    ensures VerifyHash(a, b) <==> VerifyHash(b, a)
    ensures VerifyHash(a, b) && VerifyHash(b, c) ==> VerifyHash(a, c)
    ensures VerifyHash(a, b) ==> Usable(a) && Usable(b)
  {
    if a.Some? { NormalizeKeepsLength(a.value); }
    if b.Some? { NormalizeKeepsLength(b.value); }
  }

  lemma Sha1Separator(hash: string)
    requires IsSha1(hash)
    ensures |hash| >= 5 && IndexOf(hash, ':') == 4
  {
    var i, n := IndexOf(hash, ':'), NormalizeHashPrefix(hash);
    assert n[4] == ':' && n[0] == 's' && n[1] == 'h' && n[2] == 'a' && n[3] == '1';
    assert forall j :: 0 <= j < i ==> n[j] == LowerChar(hash[j]);
    assert i < |hash| ==> n[i] == ':';
  }

  /** Exactly the hashes spelled `sha1:` in any letter case are SHA-1. */
  lemma Sha1Spelling(hash: string)
    ensures IsSha1(hash) <==> |hash| >= 5 && Lower(hash[..4]) == "sha1" && hash[4] == ':'
  {
    var i, n := IndexOf(hash, ':'), NormalizeHashPrefix(hash);
    if IsSha1(hash) {
      Sha1Separator(hash);
      assert Lower(hash[..4]) == n[..4] == "sha1";
    } else if i == 4 && i < |hash| {
      assert n[..5] == Lower(hash[..4]) + [':'];
      assert "sha1:" == "sha1" + [':'];
    } else if i < |hash| && i < 4 {
      assert LowerChar(hash[i]) == ':';
      assert |hash| >= 5 ==> Lower(hash[..4])[i] == ':';
    }
  }
}
