/** The two tables the transitive scan keys by package name alone: where a git package
    comes from, and what the flat scan said about a registry package. */
module Resolvers {
  import opened Verdicts

  /** A hash map filled in order: the last entry of a name stays. */
  function Filled<V>(entries: seq<(string, V)>): map<string, V> {
    if entries == [] then map[]
    else Filled(entries[..|entries| - 1])[entries[|entries| - 1].0 := entries[|entries| - 1].1]
  }

  /** The last entry of a name. */
  predicate IsLast<V>(entries: seq<(string, V)>, i: nat, name: string) {
    i < |entries| && entries[i].0 == name && forall j :: i < j < |entries| ==> entries[j].0 != name
  }

  lemma {:induction false} FilledMeaning<V>(entries: seq<(string, V)>, i: nat, name: string)
    requires IsLast(entries, i, name)
    ensures name in Filled(entries) && Filled(entries)[name] == entries[i].1
    decreases |entries|
  {
    if i < |entries| - 1 {
      FilledMeaning(entries[..|entries| - 1], i, name);
    }
  }

  /** A name in the table has a last entry. */
  lemma {:induction false} LastOf<V>(entries: seq<(string, V)>, name: string) returns (i: nat)
    requires name in Filled(entries)
    ensures IsLast(entries, i, name) && Filled(entries)[name] == entries[i].1
  {
    i := |entries| - 1;
    if entries[i].0 != name {
      i := LastOf(entries[..i], name);
    }
  }

  lemma {:induction false} FilledNames<V>(entries: seq<(string, V)>, name: string)
    ensures name in Filled(entries) <==> exists i :: 0 <= i < |entries| && entries[i].0 == name
  {
    if entries != [] {
      var init := entries[..|entries| - 1];
      FilledNames(init, name);
      assert forall i :: 0 <= i < |init| ==> init[i] == entries[i];
    }
  }

  // ------------------------------------------------------------------
  // Where a git package comes from
  // ------------------------------------------------------------------

  datatype Origin = Origin(url: string, ref: string)

  class GitResolver {
    var targets: map<string, Origin>

    constructor ()
      ensures targets == map[]
    {
      targets := map[];
    }

    method Record(roots: seq<(string, Origin)>)
      requires targets == map[]
      modifies this
      ensures targets == Filled(roots)
    {
      for i := 0 to |roots|
        invariant targets == Filled(roots[..i])
      {
        assert roots[..i + 1][..i] == roots[..i];
        targets := targets[roots[i].0 := roots[i].1];
      }
      assert roots[..|roots|] == roots;
    }

    /** What the last root of this name was recorded with, whatever commit is asked for. */
    method Resolve(name: string, commitSha: string, ghost roots: seq<(string, Origin)>) returns (origin: Option<Origin>)
      requires targets == Filled(roots)
      ensures forall i: nat :: IsLast(roots, i, name) ==> origin == Some(roots[i].1)
      ensures origin.None? <==> forall i :: 0 <= i < |roots| ==> roots[i].0 != name
    {
      FilledNames(roots, name);
      forall i: nat | IsLast(roots, i, name) ensures name in targets && targets[name] == roots[i].1 {
        FilledMeaning(roots, i, name);
      }
      origin := if name in targets then Some(targets[name]) else None;
    }
  }

  /** A root is resolved, whatever its commit, to the last root of its name; so every root
      resolves to its own origin iff no two roots of one name differ, and the others are
      scanned at another commit. */
  lemma RootsResolveToThemselvesIff(roots: seq<(string, Origin)>)
    ensures (forall i :: 0 <= i < |roots| ==>
               roots[i].0 in Filled(roots) && Filled(roots)[roots[i].0] == roots[i].1)
       <==> forall i, j :: 0 <= i < j < |roots| && roots[i].0 == roots[j].0 ==> roots[i].1 == roots[j].1
  {
    if forall i, j :: 0 <= i < j < |roots| && roots[i].0 == roots[j].0 ==> roots[i].1 == roots[j].1 {
      forall i | 0 <= i < |roots|
        ensures roots[i].0 in Filled(roots) && Filled(roots)[roots[i].0] == roots[i].1
      {
        FilledNames(roots, roots[i].0);
        var j := LastOf(roots, roots[i].0);
      }
    }
  }

  // ------------------------------------------------------------------
  // Verdicts of the flat scan
  // ------------------------------------------------------------------

  /** A registry node gets the flat verdict shown for its name, and warns without one. */
  function RegistryVerdict(results: seq<(string, string)>, name: string): Verdict {
    if name in Filled(results) then VerdictFromString(Filled(results)[name]) else Warn
  }

  /** One package of the flat scan: the name it was asked for by, which is its root's, the
      name its result shows, the result, and whether it is a git package: its result is
      filed like any other, but its root does not ask for one. */
  datatype Listed = Listed(requested: string, shown: string, result: string, git: bool)

  function Pairs(list: seq<Listed>): (pairs: seq<(string, string)>)
    ensures |pairs| == |list|
  {
    seq(|list|, i requires 0 <= i < |list| => (list[i].shown, list[i].result))
  }

  /** The package's root finds its verdict: the last result shown under the requested name
      agrees with the package's own, or there is none and the package itself warns. */
  ghost predicate Backed(list: seq<Listed>, i: nat)
    requires i < |list|
  {
    var own := VerdictFromString(list[i].result);
    && (forall j: nat :: IsLast(Pairs(list), j, list[i].requested) ==> VerdictFromString(list[j].result) == own)
    && ((forall j :: 0 <= j < |list| ==> list[j].shown != list[i].requested) ==> own == Warn)
  }

  lemma OwnVerdictIffBacked(list: seq<Listed>, i: nat)
    requires i < |list|
    ensures RegistryVerdict(Pairs(list), list[i].requested) == VerdictFromString(list[i].result) <==> Backed(list, i)
  {
    var (pairs, name) := (Pairs(list), list[i].requested);
    FilledNames(pairs, name);
    if name in Filled(pairs) {
      var j := LastOf(pairs, name);
      assert pairs[j].0 == list[j].shown;
      assert forall k: nat :: IsLast(pairs, k, name) ==> k == j;
    } else {
      assert forall j :: 0 <= j < |list| ==> pairs[j].0 == list[j].shown;
    }
  }

  /** The walk gives every registry package of the flat scan its own verdict iff each is
      backed; and a name that no result shows never passes. */
  lemma FlatVerdictsSurviveIff(list: seq<Listed>)
    ensures (forall i :: 0 <= i < |list| && !list[i].git ==>
               RegistryVerdict(Pairs(list), list[i].requested) == VerdictFromString(list[i].result))
       <==> forall i :: 0 <= i < |list| && !list[i].git ==> Backed(list, i)
    ensures forall name :: RegistryVerdict(Pairs(list), name) == Pass ==>
              exists i :: 0 <= i < |list| && list[i].shown == name
  {
    forall i | 0 <= i < |list|
      ensures RegistryVerdict(Pairs(list), list[i].requested) == VerdictFromString(list[i].result) <==> Backed(list, i)
    {
      OwnVerdictIffBacked(list, i);
    }
    forall name | RegistryVerdict(Pairs(list), name) == Pass ensures exists i :: 0 <= i < |list| && list[i].shown == name {
      FilledNames(Pairs(list), name);
      var i :| 0 <= i < |list| && Pairs(list)[i].0 == name;
      assert list[i].shown == name;
    }
  }

  predicate GitIsLast(list: seq<Listed>, j: nat, name: string) {
    IsLast(Pairs(list), j, name) && list[j].git
  }

  /** Where every package is shown as it was asked for, that is: two registry results of
      one name agree, whatever their versions, and a git result of that name that comes
      after them agrees with them. */
  lemma SpelledAlikeSurviveIff(list: seq<Listed>)
    requires forall i :: 0 <= i < |list| ==> list[i].shown == list[i].requested
    ensures (forall i :: 0 <= i < |list| && !list[i].git ==> Backed(list, i))
       <==> && (forall i, j :: 0 <= i < j < |list| && !list[i].git && !list[j].git && list[i].requested == list[j].requested ==>
                  VerdictFromString(list[i].result) == VerdictFromString(list[j].result))
            && (forall i, j: nat :: 0 <= i < |list| && !list[i].git && GitIsLast(list, j, list[i].requested) ==>
                  VerdictFromString(list[i].result) == VerdictFromString(list[j].result))
  {
    if forall i :: 0 <= i < |list| && !list[i].git ==> Backed(list, i) {
      forall i, j | 0 <= i < j < |list| && !list[i].git && !list[j].git && list[i].requested == list[j].requested
        ensures VerdictFromString(list[i].result) == VerdictFromString(list[j].result)
      {
        FilledNames(Pairs(list), list[i].requested);
        assert Pairs(list)[i].0 == list[i].requested;
        var k := LastOf(Pairs(list), list[i].requested);
        assert Backed(list, i) && Backed(list, j);
      }
    }
  }

  /** A blocked version passes in the walk if another version of it, scanned later, does... */
  lemma BlockedVersionCanPass()
    ensures RegistryVerdict([("lodash", "block"), ("lodash", "pass")], "lodash") == Pass
  {
    FilledMeaning([("lodash", "block"), ("lodash", "pass")], 1, "lodash");
  }

  /** ... and a passing package warns if the registry spells it otherwise. */
  lemma RespelledPackageWarns(requested: string, shown: string)
    requires requested != shown
    ensures RegistryVerdict(Pairs([Listed(requested, shown, "pass", false)]), requested) == Warn
  {
    FilledNames(Pairs([Listed(requested, shown, "pass", false)]), requested);
  }
}
