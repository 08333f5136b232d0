/** The CycloneDX document: components, and vulnerability entries that refer to them. */
module Sbom {
  import opened Bytes
  import opened Text

  datatype Result = Result(package: string, version: string, registry: string, verdict: string, vulns: seq<string>)

  datatype Component = Component(bomRef: string, name: string, version: string, purl: string, verdict: string)

  datatype Vulnerability = Vulnerability(id: string, affects: string)

  /** The purl type of a registry label; git and unknown labels are shown as npm. */
  function PurlType(registry: string): string {
    if registry == "pypi" then "pypi"
    else if registry == "crates" then "cargo"
    else if registry == "go" then "golang"
    else "npm"
  }

  function Purl(registry: string, name: string, version: string): string {
    "pkg:" + PurlType(registry) + "/" + name + "@" + version
  }

  function BomRef(name: string, index: nat): string {
    name + "-" + Decimal(index)
  }

  function ComponentAt(results: seq<Result>, i: nat): Component
    requires i < |results|
  {
    var r := results[i];
    Component(BomRef(r.package, i), r.package, r.version, Purl(r.registry, r.package, r.version), r.verdict)
  }

  function Components(results: seq<Result>): seq<Component> {
    seq(|results|, i requires 0 <= i < |results| => ComponentAt(results, i))
  }

  function Entries(vulns: seq<string>, ref: string): seq<Vulnerability> {
    seq(|vulns|, i requires 0 <= i < |vulns| => Vulnerability(vulns[i], ref))
  }

  function Vulnerabilities(results: seq<Result>): seq<Vulnerability> {
    if results == [] then []
    else
      var last := |results| - 1;
      Vulnerabilities(results[..last]) + Entries(results[last].vulns, BomRef(results[last].package, last))
  }

  method RenderVulnerabilities(results: seq<Result>) returns (entries: seq<Vulnerability>)
    ensures entries == Vulnerabilities(results)
  {
    entries := [];
    for i := 0 to |results|
      invariant entries == Vulnerabilities(results[..i])
    {
      assert results[..i + 1][..i] == results[..i];
      ghost var before := entries;
      var r := results[i];
      var ref := BomRef(r.package, i);
      if r.vulns == [] {
        assert before + Entries(r.vulns, ref) == before;
        continue;
      }
      for j := 0 to |r.vulns|
        invariant entries == before + Entries(r.vulns[..j], ref)
      {
        assert Entries(r.vulns[..j + 1], ref) == Entries(r.vulns[..j], ref) + [Vulnerability(r.vulns[j], ref)];
        entries := entries + [Vulnerability(r.vulns[j], ref)];
      }
      assert r.vulns[..|r.vulns|] == r.vulns;
    }
    assert results[..|results|] == results;
  }

  /** References are pairwise distinct whatever the names contain: the index is what
      follows the last '-'. */
  lemma BomRefsDistinct(m: string, i: nat, n: string, j: nat)
    requires BomRef(m, i) == BomRef(n, j)
    ensures m == n && i == j
  {
    assert BomRef(m, i) == m + ['-'] + Decimal(i) && BomRef(n, j) == n + ['-'] + Decimal(j);
    SplitAtLast(m, Decimal(i), n, Decimal(j), '-');
    DecimalInjective(i, j);
  }

  /** The findings recorded against one reference, in order. */
  function FindingsFor(entries: seq<Vulnerability>, ref: string): seq<string> {
    if entries == [] then []
    else
      FindingsFor(entries[..|entries| - 1], ref)
      + (if entries[|entries| - 1].affects == ref then [entries[|entries| - 1].id] else [])
  }

  lemma {:induction false} FindingsAppend(a: seq<Vulnerability>, b: seq<Vulnerability>, ref: string)
    ensures FindingsFor(a + b, ref) == FindingsFor(a, ref) + FindingsFor(b, ref)
  {
    if b == [] {
      assert a + b == a;
    } else {
      assert (a + b)[..|a + b| - 1] == a + b[..|b| - 1];
      FindingsAppend(a, b[..|b| - 1], ref);
    }
  }

  lemma {:induction false} FindingsOfEntries(vulns: seq<string>, owner: string, ref: string)
    ensures FindingsFor(Entries(vulns, owner), ref) == if owner == ref then vulns else []
  {
    if vulns != [] {
      var init := vulns[..|vulns| - 1];
      assert Entries(vulns, owner)[..|vulns| - 1] == Entries(init, owner);
      FindingsOfEntries(init, owner, ref);
      assert vulns == init + [vulns[|vulns| - 1]];
    }
  }

  lemma {:induction false} FindingsOfComponent(results: seq<Result>, name: string, i: nat)
    ensures FindingsFor(Vulnerabilities(results), BomRef(name, i))
         == if i < |results| && results[i].package == name then results[i].vulns else []
  {
    if results != [] {
      var last := |results| - 1;
      var owner := BomRef(results[last].package, last);
      FindingsOfComponent(results[..last], name, i);
      FindingsAppend(Vulnerabilities(results[..last]), Entries(results[last].vulns, owner), BomRef(name, i));
      FindingsOfEntries(results[last].vulns, owner, BomRef(name, i));
      if owner == BomRef(name, i) {
        BomRefsDistinct(results[last].package, last, name, i);
      }
    }
  }

  lemma {:induction false} EntriesHaveOwners(results: seq<Result>)
    ensures forall v :: v in Vulnerabilities(results) ==>
              exists i :: 0 <= i < |results| && v.affects == BomRef(results[i].package, i)
  {
    if results != [] {
      var last := |results| - 1;
      EntriesHaveOwners(results[..last]);
      assert forall i :: 0 <= i < last ==> results[..last][i] == results[i];
      var own := Entries(results[last].vulns, BomRef(results[last].package, last));
      assert forall v :: v in own ==> v.affects == BomRef(results[last].package, last);
    }
  }

  /** Reference integrity: no two components share a reference, every vulnerability
      refers to a component, and the entries referring to a component are exactly the
      findings of the package it shows, in order. */
  lemma ReferenceIntegrity(results: seq<Result>)
    ensures var (components, entries) := (Components(results), Vulnerabilities(results));
            && (forall i, j :: 0 <= i < j < |components| ==> components[i].bomRef != components[j].bomRef)
            && (forall v :: v in entries ==> exists c :: c in components && c.bomRef == v.affects)
            && (forall i :: 0 <= i < |components| ==> FindingsFor(entries, components[i].bomRef) == results[i].vulns)
  {
    var (components, entries) := (Components(results), Vulnerabilities(results));
    forall i, j | 0 <= i < j < |components| ensures components[i].bomRef != components[j].bomRef {
      if components[i].bomRef == components[j].bomRef {
        BomRefsDistinct(results[i].package, i, results[j].package, j);
      }
    }
    EntriesHaveOwners(results);
    forall v | v in entries ensures exists c :: c in components && c.bomRef == v.affects {
      var i :| 0 <= i < |results| && v.affects == BomRef(results[i].package, i);
      assert components[i] in components && components[i].bomRef == v.affects;
    }
    forall i | 0 <= i < |components| ensures FindingsFor(entries, components[i].bomRef) == results[i].vulns {
      FindingsOfComponent(results, results[i].package, i);
    }
  }

  /** What a purl still tells: the registry's purl type, and the name and version only
      up to the place of the '@' between them. In particular a git package and an npm
      package of the same name and version share one. */
  lemma PurlCollidesIff(a: Result, b: Result)
    ensures Purl(a.registry, a.package, a.version) == Purl(b.registry, b.package, b.version) <==>
              PurlType(a.registry) == PurlType(b.registry)
              && a.package + "@" + a.version == b.package + "@" + b.version
  {
    PurlShape(a);
    PurlShape(b);
    if Purl(a.registry, a.package, a.version) == Purl(b.registry, b.package, b.version) {
      NoSlash(a.registry);
      NoSlash(b.registry);
      SplitAtFirst("pkg:" + PurlType(a.registry), a.package + "@" + a.version,
                   "pkg:" + PurlType(b.registry), b.package + "@" + b.version, '/');
      assert PurlType(a.registry) == ("pkg:" + PurlType(a.registry))[4..];
      assert PurlType(b.registry) == ("pkg:" + PurlType(b.registry))[4..];
    }
  }

  lemma PurlShape(r: Result)
    ensures Purl(r.registry, r.package, r.version)
         == ("pkg:" + PurlType(r.registry)) + ['/'] + (r.package + "@" + r.version)
  {
  }

  lemma NoSlash(registry: string)
    ensures '/' !in "pkg:" + PurlType(registry)
  {
  }
}
