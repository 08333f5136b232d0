/** Reading a go.sum manifest: one dependency per distinct module and version, and a
    graph of those nodes without edges. */
module GoSum {
  import opened Verdicts
  import opened Text
  import opened Graph
  import opened DependencyGraph

  datatype Module = Module(name: string, version: string)

  const GO_MOD: string := "/go.mod"

  predicate EndsInGoMod(s: string) {
    |s| >= |GO_MOD| && s[|s| - |GO_MOD|..] == GO_MOD
  }

  function StripGoMod(version: string): string {
    if EndsInGoMod(version) then version[..|version| - |GO_MOD|] else version
  }

  // ------------------------------------------------------------------
  // Fields
  // ------------------------------------------------------------------

  function WordStart(s: string, from: nat): (i: nat)
    requires from <= |s|
    ensures from <= i <= |s|
    ensures forall j :: from <= j < i ==> IsWhitespace(s[j])
    ensures i < |s| ==> !IsWhitespace(s[i])
    decreases |s| - from
  {
    if from == |s| || !IsWhitespace(s[from]) then from else WordStart(s, from + 1)
  }

  function WordEnd(s: string, from: nat): (i: nat)
    requires from <= |s|
    ensures from <= i <= |s|
    ensures forall j :: from <= j < i ==> !IsWhitespace(s[j])
    ensures i < |s| ==> IsWhitespace(s[i])
    ensures from < |s| && !IsWhitespace(s[from]) ==> from < i
    decreases |s| - from
  {
    if from == |s| || IsWhitespace(s[from]) then from else WordEnd(s, from + 1)
  }

  /** The maximal whitespace-free pieces. */
  function FieldsFrom(s: string, from: nat): seq<string>
    requires from <= |s|
    decreases |s| - from
  {
    var i := WordStart(s, from);
    if i == |s| then [] else [s[i..WordEnd(s, i)]] + FieldsFrom(s, WordEnd(s, i))
  }

  predicate IsWord(s: string) {
    s != "" && NoWhitespace(s)
  }

  predicate NoWhitespace(s: string) {
    forall i :: 0 <= i < |s| ==> !IsWhitespace(s[i])
  }

  lemma {:induction false} FieldsAreWords(s: string, from: nat)
    requires from <= |s|
    ensures forall k :: 0 <= k < |FieldsFrom(s, from)| ==> IsWord(FieldsFrom(s, from)[k])
    decreases |s| - from
  {
    var i := WordStart(s, from);
    if i < |s| {
      FieldsAreWords(s, WordEnd(s, i));
      assert IsWord(s[i..WordEnd(s, i)]);
    }
  }

  // ------------------------------------------------------------------
  // Parsing
  // ------------------------------------------------------------------

  /** A line with at least three fields names a module and a version. */
  function LineModule(line: string): Option<Module> {
    var parts := FieldsFrom(Trim(line), 0);
    if |parts| < 3 then None else Some(Module(parts[0], StripGoMod(parts[1])))
  }

  function LineModules(lines: seq<string>): seq<Option<Module>> {
    seq(|lines|, i requires 0 <= i < |lines| => LineModule(lines[i]))
  }

  function Listed(lines: seq<string>): seq<Module> {
    Somes(LineModules(lines))
  }

  function FirstOccurrences<T(==)>(list: seq<T>): seq<T> {
    if list == [] then []
    else
      var before := FirstOccurrences(list[..|list| - 1]);
      if list[|list| - 1] in before then before else before + [list[|list| - 1]]
  }

  function ParsedModules(content: string): seq<Module> {
    FirstOccurrences(Listed(Lines(content)))
  }

  method ParseGoSum(content: string) returns (deps: seq<Module>)
    ensures deps == ParsedModules(content)
  {
    deps := [];
    var seen: set<Module> := {};
    var lines := Lines(content);
    ghost var all := LineModules(lines);
    for i := 0 to |lines|
      invariant deps == FirstOccurrences(Somes(all[..i]))
      invariant forall m :: m in seen <==> m in deps
    {
      SomesStep(all, i);
      var trimmed := Trim(lines[i]);
      if trimmed == "" { continue; }
      var parts := FieldsFrom(trimmed, 0);
      if |parts| < 3 { continue; }
      var m := Module(parts[0], StripGoMod(parts[1]));
      assert all[i] == Some(m);
      FirstOccurrencesPush(Somes(all[..i]), m);
      if m in seen { continue; }
      seen := seen + {m};
      deps := deps + [m];
    }
    assert all[..|lines|] == all;
  }

  lemma FirstOccurrencesPush<T>(list: seq<T>, x: T)
    ensures FirstOccurrences(list + [x])
         == if x in FirstOccurrences(list) then FirstOccurrences(list) else FirstOccurrences(list) + [x]
  {
    assert (list + [x])[..|list|] == list;
  }

  lemma {:induction false} SameElements<T>(list: seq<T>, x: T)
    ensures x in FirstOccurrences(list) <==> x in list
  {
    if list != [] {
      SameElements(list[..|list| - 1], x);
      assert list == list[..|list| - 1] + [list[|list| - 1]];
    }
  }

  /** The output is the distinct elements, ordered by where each first occurs. */
  lemma {:induction false} FirstOccurrencesMeaning<T>(list: seq<T>)
    ensures forall x :: x in FirstOccurrences(list) <==> x in list
    ensures forall i, j :: 0 <= i < j < |FirstOccurrences(list)| ==>
              IndexOf(list, FirstOccurrences(list)[i]) < IndexOf(list, FirstOccurrences(list)[j])
  {
    if list != [] {
      var (init, x) := (list[..|list| - 1], list[|list| - 1]);
      var before := FirstOccurrences(init);
      FirstOccurrencesMeaning(init);
      assert list == init + [x];
      forall y | y in init ensures IndexOf(list, y) == IndexOf(init, y) < |init| {
        IndexOfInit(list, y);
      }
      forall i | 0 <= i < |before| ensures before[i] in init {
        SameElements(init, before[i]);
      }
      SameElements(init, x);
      if x !in before {
        assert IndexOf(list, x) == |init|;
      }
    }
    forall x ensures x in FirstOccurrences(list) <==> x in list {
      SameElements(list, x);
    }
  }

  lemma IndexOfInit<T>(list: seq<T>, y: T)
    requires list != [] && y in list[..|list| - 1]
    ensures IndexOf(list, y) == IndexOf(list[..|list| - 1], y) < |list| - 1
  {
    var init := list[..|list| - 1];
    var k :| 0 <= k < |init| && init[k] == y;
    var (a, b) := (IndexOf(list, y), IndexOf(init, y));
    assert b < |init|;
    assert list[b] == init[b] == y;
    assert a <= b;
    assert init[a] == list[a] == y;
  }

  lemma ListedAreWords(lines: seq<string>)
    ensures forall m :: m in Listed(lines) ==> IsWord(m.name) && NoWhitespace(m.version)
  {
    forall m | m in Listed(lines) ensures IsWord(m.name) && NoWhitespace(m.version) {
      var i := SomesSource(LineModules(lines), m);
      FieldsAreWords(Trim(lines[i]), 0);
    }
  }

  // ------------------------------------------------------------------
  // Rendering and parsing again
  // ------------------------------------------------------------------

  function Line(m: Module, hash: string): string {
    m.name + " " + m.version + " " + hash
  }

  function RenderedLines(deps: seq<Module>, hash: string): seq<string> {
    seq(|deps|, i requires 0 <= i < |deps| => Line(deps[i], hash))
  }

  function Render(deps: seq<Module>, hash: string): string {
    if deps == [] then "" else JoinBy(RenderedLines(deps, hash), '\n')
  }

  predicate WordAt(s: string, i: nat, end: nat)
    requires end <= |s|
  {
    forall t :: i <= t < end ==> !IsWhitespace(s[t])
  }

  lemma FieldAt(s: string, i: nat, end: nat)
    requires i < end <= |s| && WordAt(s, i, end) && (end < |s| ==> IsWhitespace(s[end]))
    ensures FieldsFrom(s, i) == [s[i..end]] + FieldsFrom(s, end)
  {
    assert WordStart(s, i) == i;
    assert WordEnd(s, i) == end;
  }

  lemma SkipSpace(s: string, i: nat)
    requires i < |s| && s[i] == ' '
    ensures FieldsFrom(s, i) == FieldsFrom(s, i + 1)
  {
    assert WordStart(s, i) == WordStart(s, i + 1);
  }

  lemma LastWord(s: string, j: nat)
    requires j < |s| - 1 && s[j] == ' ' && WordAt(s, j + 1, |s|)
    ensures FieldsFrom(s, j) == [s[j + 1..|s|]]
  {
    SkipSpace(s, j);
    FieldAt(s, j + 1, |s|);
    assert FieldsFrom(s, |s|) == [];
  }

  /** The fields of a text with blanks at `i` and `j` and nowhere else. */
  lemma MiddleWord(s: string, i: nat, j: nat)
    requires 0 < i < j < |s| - 1 && s[i] == ' ' && s[j] == ' '
    requires WordAt(s, i + 1, j) && WordAt(s, j + 1, |s|)
    ensures FieldsFrom(s, i) == if i + 1 == j then [s[j + 1..|s|]] else [s[i + 1..j], s[j + 1..|s|]]
  {
    SkipSpace(s, i);
    LastWord(s, j);
    if i + 1 < j {
      FieldAt(s, i + 1, j);
    }
  }

  lemma BlankSeparated(s: string, i: nat, j: nat)
    requires 0 < i < j < |s| - 1 && s[i] == ' ' && s[j] == ' '
    requires WordAt(s, 0, i) && WordAt(s, i + 1, j) && WordAt(s, j + 1, |s|)
    ensures FieldsFrom(s, 0)
         == if i + 1 == j then [s[0..i], s[j + 1..|s|]] else [s[0..i], s[i + 1..j], s[j + 1..|s|]]
  {
    FieldAt(s, 0, i);
    MiddleWord(s, i, j);
  }

  lemma LineShape(m: Module, hash: string)
    ensures var (s, i, j) := (Line(m, hash), |m.name|, |m.name| + 1 + |m.version|);
            && |s| == j + 1 + |hash| && s[i] == ' ' && s[j] == ' '
            && s[0..i] == m.name && s[i + 1..j] == m.version && s[j + 1..|s|] == hash
  {
  }

  lemma LineWords(m: Module, hash: string)
    requires IsWord(m.name) && NoWhitespace(m.version) && IsWord(hash)
    ensures var (s, i, j) := (Line(m, hash), |m.name|, |m.name| + 1 + |m.version|);
            |s| == j + 1 + |hash| && WordAt(s, 0, i) && WordAt(s, i + 1, j) && WordAt(s, j + 1, |s|)
  {
    var (s, i, j) := (Line(m, hash), |m.name|, |m.name| + 1 + |m.version|);
    assert forall t :: 0 <= t < i ==> s[t] == m.name[t];
    assert forall t :: i + 1 <= t < j ==> s[t] == m.version[t - (i + 1)];
    assert forall t :: j + 1 <= t < |s| ==> s[t] == hash[t - (j + 1)];
  }

  /** The fields of one rendered line. */
  lemma LineFields(m: Module, hash: string)
    requires IsWord(m.name) && NoWhitespace(m.version) && IsWord(hash)
    ensures FieldsFrom(Line(m, hash), 0) == if m.version == "" then [m.name, hash] else [m.name, m.version, hash]
  {
    LineShape(m, hash);
    LineWords(m, hash);
    BlankSeparated(Line(m, hash), |m.name|, |m.name| + 1 + |m.version|);
  }

  lemma LineReads(m: Module, hash: string)
    requires IsWord(m.name) && NoWhitespace(m.version) && IsWord(hash)
    ensures LineModule(Line(m, hash))
         == if m.version == "" then None else Some(Module(m.name, StripGoMod(m.version)))
  {
    var s := Line(m, hash);
    assert s[0] == m.name[0] && s[|s| - 1] == hash[|hash| - 1];
    TrimKeeps(s);
    LineFields(m, hash);
  }

  lemma RenderedLinesSurvive(deps: seq<Module>, hash: string)
    requires IsWord(hash) && forall m :: m in deps ==> IsWord(m.name) && NoWhitespace(m.version)
    ensures Lines(Render(deps, hash)) == RenderedLines(deps, hash)
  {
    if deps == [] {
      assert SplitBy("", '\n') == [""];
    } else {
      var lines := RenderedLines(deps, hash);
      forall i | 0 <= i < |lines| ensures '\n' !in lines[i] && StripCr(lines[i]) == lines[i] != "" {
        LineIsPlain(deps[i], hash);
      }
      LinesOfJoined(lines);
    }
  }

  lemma LineIsPlain(m: Module, hash: string)
    requires IsWord(m.name) && NoWhitespace(m.version) && IsWord(hash)
    ensures '\n' !in Line(m, hash) && StripCr(Line(m, hash)) == Line(m, hash) != ""
  {
    var s := Line(m, hash);
    assert s[|s| - 1] == hash[|hash| - 1];
    assert '\n' !in m.name && '\n' !in m.version && '\n' !in hash by {
      assert IsWhitespace('\n');
    }
  }

  predicate Plain(m: Module) {
    m.version != "" && !EndsInGoMod(m.version)
  }

  lemma {:induction false} SomesIsWholeIff<T>(options: seq<Option<T>>, list: seq<T>)
    requires |options| == |list|
    ensures |Somes(options)| <= |list|
    ensures Somes(options) == list <==> forall i :: 0 <= i < |list| ==> options[i] == Some(list[i])
  {
    if list != [] {
      var last := |list| - 1;
      SomesIsWholeIff(options[..last], list[..last]);
      assert list == list[..last] + [list[last]];
      if Somes(options) == list && options[last].Some? {
        assert Somes(options[..last]) == Somes(options)[..last];
      }
    }
  }

  lemma ListedRendered(deps: seq<Module>, hash: string)
    requires IsWord(hash) && forall m :: m in deps ==> IsWord(m.name) && NoWhitespace(m.version)
    ensures |Listed(RenderedLines(deps, hash))| <= |deps|
    ensures Listed(RenderedLines(deps, hash)) == deps <==> forall i :: 0 <= i < |deps| ==> Plain(deps[i])
  {
    var read := LineModules(RenderedLines(deps, hash));
    forall i | 0 <= i < |deps| ensures read[i] == Some(deps[i]) <==> Plain(deps[i]) {
      LineReads(deps[i], hash);
      StripIsIdentityIff(deps[i].version);
    }
    SomesIsWholeIff(read, deps);
  }

  lemma StripIsIdentityIff(version: string)
    ensures StripGoMod(version) == version <==> !EndsInGoMod(version)
  {
  }

  ghost predicate Distinct<T>(list: seq<T>) {
    forall i, j :: 0 <= i < j < |list| ==> list[i] != list[j]
  }

  lemma {:induction false} DistinctStays<T>(list: seq<T>)
    ensures |FirstOccurrences(list)| <= |list|
    ensures FirstOccurrences(list) == list <==> Distinct(list)
  {
    if list != [] {
      var (init, x) := (list[..|list| - 1], list[|list| - 1]);
      DistinctStays(init);
      FirstOccurrencesMeaning(init);
      assert list == init + [x];
      if FirstOccurrences(list) == list {
        assert FirstOccurrences(init) == list[..|init|];
        assert forall i :: 0 <= i < |init| ==> init[i] in init;
      }
      if Distinct(list) {
        assert forall i :: 0 <= i < |init| ==> list[i] != x;
        assert x !in init;
      }
    }
  }

  lemma ShorterListing<T>(list: seq<T>, target: seq<T>)
    requires Distinct(target) && |list| <= |target|
    ensures FirstOccurrences(list) == target <==> list == target
  {
    DistinctStays(list);
    DistinctStays(target);
    if FirstOccurrences(list) == target {
      FullLength(list);
    }
  }

  lemma {:induction false} FullLength<T>(list: seq<T>)
    requires |FirstOccurrences(list)| >= |list|
    ensures FirstOccurrences(list) == list
  {
    if list != [] {
      DistinctStays(list[..|list| - 1]);
      FullLength(list[..|list| - 1]);
    }
  }

  /** Printing what was read and reading it back is the identity iff no module has an
      empty version or one that still ends in the suffix. */
  lemma ReparseIsIdentityIff(content: string, hash: string)
    requires IsWord(hash)
    ensures var deps := ParsedModules(content);
            ParsedModules(Render(deps, hash)) == deps <==> forall i :: 0 <= i < |deps| ==> Plain(deps[i])
  {
    var deps := ParsedModules(content);
    var list := Listed(Lines(content));
    FirstOccurrencesMeaning(list);
    ListedAreWords(Lines(content));
    assert Distinct(deps);
    RenderedLinesSurvive(deps, hash);
    ListedRendered(deps, hash);
    ShorterListing(Listed(RenderedLines(deps, hash)), deps);
  }

  // ------------------------------------------------------------------
  // The graph
  // ------------------------------------------------------------------

  function GoNode(m: Module): NodeId {
    Registry(m.name, m.version, "go")
  }

  lemma AddGoNode(deps: seq<Module>, i: nat)
    requires i < |deps|
    ensures Edgeless(GoNodes(deps[..i + 1])) == WithNode(Edgeless(GoNodes(deps[..i])), GoNode(deps[i]))
  {
    assert deps[..i + 1] == deps[..i] + [deps[i]];
    assert GoNodes(deps[..i + 1]) == GoNodes(deps[..i]) + {GoNode(deps[i])};
  }

  /** Each parsed module a node without edges. */
  method GoSumToGraph(content: string) returns (graph: DependencyGraph)
    ensures fresh(graph) && graph.edges == Edgeless(GoNodes(ParsedModules(content)))
  {
    var deps := ParseGoSum(content);
    graph := new DependencyGraph();
    for i := 0 to |deps|
      invariant fresh(graph) && graph.edges == Edgeless(GoNodes(deps[..i]))
    {
      AddGoNode(deps, i);
      graph.AddNode(GoNode(deps[i]));
    }
    assert deps[..|deps|] == deps;
  }

  ghost function Edgeless(nodes: set<NodeId>): Adjacency {
    map n | n in nodes :: []
  }

  ghost function GoNodes(deps: seq<Module>): set<NodeId> {
    set m | m in deps :: GoNode(m)
  }

  /** One node per parsed module: distinct modules are distinct nodes. */
  lemma {:induction false} OneNodePerModule(deps: seq<Module>)
    requires Distinct(deps)
    ensures |GoNodes(deps)| == |deps|
  {
    if deps != [] {
      var (init, m) := (deps[..|deps| - 1], deps[|deps| - 1]);
      OneNodePerModule(init);
      assert deps == init + [m];
      assert GoNodes(deps) == GoNodes(init) + {GoNode(m)};
      assert forall x :: x in init ==> x != m;
    }
  }
}
