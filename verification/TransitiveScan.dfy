/** The orchestration around the walk: the distinct-node budget, the walk of
    every root, and the failure verdict that reaches the exit code. */
module TransitiveScan {
  import opened Verdicts
  import opened Graph
  import opened TransitiveWalk

  // ------------------------------------------------------------------
  // Node budget
  // ------------------------------------------------------------------

  datatype Breach = Breach(count: nat, limit: nat)
  datatype BudgetCharge = Counted | Exceeded(breach: Breach)

  class NodeBudget {
    const limit: nat
    var counted: set<NodeId>

    constructor (limit: nat)
      ensures this.limit == limit && counted == {}
    {
      this.limit, counted := limit, {};
    }

    /** Charges a node at most once; never records the one that goes over. */
    method Charge(node: NodeId) returns (charge: BudgetCharge)
      modifies this
      ensures (node in old(counted) || |old(counted)| + 1 <= limit)
              ==> charge == Counted && counted == old(counted) + {node}
      ensures !(node in old(counted) || |old(counted)| + 1 <= limit)
              ==> charge == Exceeded(Breach(|old(counted)| + 1, limit)) && counted == old(counted)
    {
      if node in counted {
        assert counted == counted + {node};
        return Counted;
      }
      var wouldBe := |counted| + 1;
      if wouldBe > limit {
        return Exceeded(Breach(wouldBe, limit));
      }
      counted := counted + {node};
      return Counted;
    }
  }

  function Elements(nodes: seq<NodeId>): set<NodeId> {
    set n | n in nodes
  }

  /** The first breach while charging `nodes` in order, and what has been counted. */
  function Charged(limit: nat, start: set<NodeId>, nodes: seq<NodeId>): (Option<Breach>, set<NodeId>) {
    if nodes == [] then (None, start)
    else ChargedOne(limit, Charged(limit, start, nodes[..|nodes| - 1]), nodes[|nodes| - 1])
  }

  function ChargedOne(limit: nat, before: (Option<Breach>, set<NodeId>), n: NodeId): (Option<Breach>, set<NodeId>) {
    var (breach, counted) := before;
    if breach.Some? || n in counted then before
    else if |counted| + 1 > limit then (Some(Breach(|counted| + 1, limit)), counted)
    else (None, counted + {n})
  }

  lemma ChargedPush(limit: nat, start: set<NodeId>, nodes: seq<NodeId>, n: NodeId)
    ensures Charged(limit, start, nodes + [n]) == ChargedOne(limit, Charged(limit, start, nodes), n)
  {
    assert (nodes + [n])[..|nodes|] == nodes;
  }

  /** Charging goes on where it stopped, and a breach stays. */
  lemma {:induction false} ChargedMore(limit: nat, start: set<NodeId>, a: seq<NodeId>, b: seq<NodeId>)
    ensures var before := Charged(limit, start, a);
            Charged(limit, start, a + b) == if before.0.Some? then before else Charged(limit, before.1, b)
    decreases |b|
  {
    if b == [] {
      assert a + b == a;
    } else {
      var (init, n) := (b[..|b| - 1], b[|b| - 1]);
      ChargedMore(limit, start, a, init);
      assert a + b == (a + init) + [n];
      ChargedPush(limit, start, a + init, n);
    }
  }

  lemma {:induction false} BreachStays(limit: nat, start: set<NodeId>, nodes: seq<NodeId>, i: nat)
    requires i <= |nodes| && Charged(limit, start, nodes[..i]).0.Some?
    ensures Charged(limit, start, nodes) == Charged(limit, start, nodes[..i])
    decreases |nodes|
  {
    if i == |nodes| {
      assert nodes[..i] == nodes;
    } else {
      assert nodes[..|nodes| - 1][..i] == nodes[..i];
      BreachStays(limit, start, nodes[..|nodes| - 1], i);
    }
  }

  /** Stops at the first breach. */
  method ChargeAll(budget: NodeBudget, nodes: seq<NodeId>) returns (breach: Option<Breach>)
    modifies budget
    ensures (breach, budget.counted) == Charged(budget.limit, old(budget.counted), nodes)
  {
    ghost var start := budget.counted;
    for i := 0 to |nodes|
      invariant (None, budget.counted) == Charged(budget.limit, start, nodes[..i])
    {
      assert nodes[..i + 1] == nodes[..i] + [nodes[i]];
      ChargedPush(budget.limit, start, nodes[..i], nodes[i]);
      ghost var before := budget.counted;
      assert nodes[i] in before ==> before + {nodes[i]} == before;
      var charge := budget.Charge(nodes[i]);
      if charge.Exceeded? {
        BreachStays(budget.limit, start, nodes, i + 1);
        return Some(charge.breach);
      }
    }
    assert nodes[..|nodes|] == nodes;
    return None;
  }

  lemma OneMore<T>(s: set<T>, x: T)
    ensures |s + {x}| == if x in s then |s| else |s| + 1
  {
    assert x in s ==> s + {x} == s;
  }

  lemma ElementsStep(start: set<NodeId>, nodes: seq<NodeId>)
    requires nodes != []
    ensures start + Elements(nodes) == start + Elements(nodes[..|nodes| - 1]) + {nodes[|nodes| - 1]}
  {
    assert nodes == nodes[..|nodes| - 1] + [nodes[|nodes| - 1]];
  }

  lemma OneMoreCharged(limit: nat, before: (Option<Breach>, set<NodeId>), all: set<NodeId>, n: NodeId)
    requires |before.1| <= limit
    requires if |all| > limit then before.0 == Some(Breach(limit + 1, limit)) else before == (None, all)
    ensures var (breach, counted) := ChargedOne(limit, before, n);
            && (if |all + {n}| > limit then breach == Some(Breach(limit + 1, limit)) else breach == None && counted == all + {n})
            && |counted| <= limit
  {
    OneMore(all, n);
    assert n in all ==> all + {n} == all;
  }

  /** The ceiling trips iff the number of distinct nodes exceeds it, in whatever
      order and however often they are charged, and it always reports limit + 1;
      otherwise every node has been counted. */
  lemma {:induction false} BreachIffTooManyDistinct(limit: nat, start: set<NodeId>, nodes: seq<NodeId>)
    requires |start| <= limit
    ensures var (breach, counted) := Charged(limit, start, nodes);
            if |start + Elements(nodes)| > limit then breach == Some(Breach(limit + 1, limit))
            else breach == None && counted == start + Elements(nodes)
    ensures |Charged(limit, start, nodes).1| <= limit
  {
    if nodes == [] {
      assert start + Elements(nodes) == start;
    } else {
      var (before, n) := (nodes[..|nodes| - 1], nodes[|nodes| - 1]);
      BreachIffTooManyDistinct(limit, start, before);
      assert nodes == before + [n];
      ChargedPush(limit, start, before, n);
      ElementsStep(start, nodes);
      OneMoreCharged(limit, Charged(limit, start, before), start + Elements(before), n);
    }
  }

  // ------------------------------------------------------------------
  // Walking every root
  // ------------------------------------------------------------------

  datatype NodeRow = NodeRow(node: string, depth: nat, verdict: string)

  /** A diagnostic as it is shown: with display strings for identities. */
  datatype ShownDiag =
    | ShownDepthLimit(node: string, depth: nat)
    | ShownCycle(from: string, to: string)
    | ShownUnresolved(from: string, name: string, range: string)

  function Project(d: Diagnostic): ShownDiag {
    match d
    case DepthLimitReached(n, depth) => ShownDepthLimit(NodeIdString(n), depth)
    case CycleDetected(a, b) => ShownCycle(NodeIdString(a), NodeIdString(b))
    case Unresolved(a, name, range) => ShownUnresolved(NodeIdString(a), name, range)
  }

  function Projected(ds: seq<Diagnostic>): seq<ShownDiag> {
    seq(|ds|, i requires 0 <= i < |ds| => Project(ds[i]))
  }

  datatype Outcome = Outcome(
    worst: Option<Verdict>,
    breach: Option<Breach>,
    diags: seq<ShownDiag>,
    nodes: seq<NodeRow>)
  {
    /** Whether the outcome raises the exit code. */
    predicate IsFailure() {
      worst == Some(Warn) || worst == Some(Block) || breach.Some?
    }
  }

  function Fold(worst: Option<Verdict>, v: Verdict): Option<Verdict> {
    match worst case None => Some(v) case Some(prev) => Some(Worse(prev, v))
  }

  /** The worst walk verdict over the roots; `None` when there are none. */
  function WorstOfRoots(p: Params, roots: seq<NodeId>): Option<Verdict> {
    if roots == [] then None
    else Fold(WorstOfRoots(p, roots[..|roots| - 1]), DfsWalk(p, roots[|roots| - 1]).0)
  }

  function Display(rows: seq<Row>): seq<NodeRow> {
    seq(|rows|, i requires 0 <= i < |rows| =>
      NodeRow(NodeIdString(rows[i].node), rows[i].depth, VerdictString(rows[i].verdict)))
  }

  predicate HasRow(nodes: seq<NodeRow>, key: string) {
    exists nr :: nr in nodes && nr.node == key
  }

  /** `nodes` has one row per display string among `shown`, each taken from there. */
  ghost predicate RowsOf(nodes: seq<NodeRow>, shown: seq<NodeRow>) {
    && (forall i, j :: 0 <= i < j < |nodes| ==> nodes[i].node != nodes[j].node)
    && (forall nr :: nr in nodes ==> nr in shown)
    && (forall nr :: nr in shown ==> HasRow(nodes, nr.node))
  }

  /** `out` has each shown diagnostic once. */
  ghost predicate DiagsOf(out: seq<ShownDiag>, shown: seq<ShownDiag>) {
    && (forall i, j :: 0 <= i < j < |out| ==> out[i] != out[j])
    && (forall d :: d in out <==> d in shown)
  }

  /** All rows and diagnostics of the walks of the roots, in order. */
  function AllRows(p: Params, roots: seq<NodeId>): seq<NodeRow> {
    if roots == [] then [] else AllRows(p, roots[..|roots| - 1]) + Display(DfsWalk(p, roots[|roots| - 1]).1.rows)
  }

  function AllDiags(p: Params, roots: seq<NodeId>): seq<ShownDiag> {
    if roots == [] then []
    else
      AllDiags(p, roots[..|roots| - 1]) + Projected(DfsWalk(p, roots[|roots| - 1]).1.diags)
  }

  /** Duplicates are removed by what is shown, so identities with one display string share
      their diagnostics. */
  method AddDiags(out: seq<ShownDiag>, ds: seq<Diagnostic>, ghost before: seq<ShownDiag>) returns (out': seq<ShownDiag>)
    requires DiagsOf(out, before)
    ensures DiagsOf(out', before + Projected(ds))
  {
    out' := out;
    ghost var all := Projected(ds);
    assert before + all[..0] == before;
    for i := 0 to |ds|
      invariant DiagsOf(out', before + all[..i])
    {
      assert before + all[..i + 1] == before + all[..i] + [all[i]];
      var shown := Project(ds[i]);
      if shown !in out' {
        out' := out' + [shown];
      }
    }
    assert all[..|ds|] == all;
  }

  /** Adds one walk's rows. The second fold never changes the worst verdict: no
      row is worse than the walk it came from. */
  method AddRows(nodes: seq<NodeRow>, worst: Option<Verdict>, rows: seq<Row>, ghost before: seq<NodeRow>)
    returns (nodes': seq<NodeRow>, worst': Option<Verdict>)
    requires RowsOf(nodes, before)
    requires worst.Some? && forall r :: r in rows ==> r.verdict.Rank() <= worst.value.Rank()
    ensures RowsOf(nodes', before + Display(rows)) && worst' == worst
  {
    nodes', worst' := nodes, worst;
    ghost var shown := Display(rows);
    assert before + shown[..0] == before;
    for i := 0 to |rows|
      invariant RowsOf(nodes', before + shown[..i]) && worst' == worst
    {
      assert before + shown[..i + 1] == before + shown[..i] + [shown[i]];
      var row := NodeRow(NodeIdString(rows[i].node), rows[i].depth, VerdictString(rows[i].verdict));
      assert row == shown[i] && rows[i] in rows;
      AddedRow(nodes', before + shown[..i], row);
      if !HasRow(nodes', row.node) {
        worst' := Fold(worst', rows[i].verdict);
        nodes' := nodes' + [row];
      }
    }
    assert shown[..|rows|] == shown;
  }

  lemma AddedRow(nodes: seq<NodeRow>, shown: seq<NodeRow>, row: NodeRow)
    requires RowsOf(nodes, shown)
    ensures RowsOf(if HasRow(nodes, row.node) then nodes else nodes + [row], shown + [row])
  {
    if !HasRow(nodes, row.node) {
      var nodes' := nodes + [row];
      assert nodes'[|nodes|] == row;
      forall nr | nr in shown + [row] ensures HasRow(nodes', nr.node) {
        if nr in shown {
          var at :| at in nodes && at.node == nr.node;
          assert at in nodes';
        }
      }
    }
  }

  /** Walks every root unless the budget is breached. */
  method RunRoots(p: Params, roots: seq<NodeId>, breach: Option<Breach>) returns (outcome: Outcome)
    ensures outcome.breach == breach
    ensures breach.Some? ==> outcome.worst.None? && outcome.diags == [] && outcome.nodes == []
    ensures breach.None? ==>
              && outcome.worst == WorstOfRoots(p, roots)
              && RowsOf(outcome.nodes, AllRows(p, roots)) && DiagsOf(outcome.diags, AllDiags(p, roots))
  {
    outcome := Outcome(None, breach, [], []);
    if breach.None? {
      for i := 0 to |roots|
        invariant outcome.breach == None && outcome.worst == WorstOfRoots(p, roots[..i])
        invariant RowsOf(outcome.nodes, AllRows(p, roots[..i])) && DiagsOf(outcome.diags, AllDiags(p, roots[..i]))
      {
        assert roots[..i + 1][..i] == roots[..i];
        var verdict, diags, rows := WalkFrom(p, roots[i]);
        var worst := Fold(outcome.worst, verdict);
        var diags' := AddDiags(outcome.diags, diags, AllDiags(p, roots[..i]));
        RowsBelowVerdict(p, roots[i]);
        var nodes', worst' := AddRows(outcome.nodes, worst, rows, AllRows(p, roots[..i]));
        outcome := Outcome(worst', None, diags', nodes');
      }
      assert roots[..|roots|] == roots;
    }
  }

  lemma RowsBelowVerdict(p: Params, root: NodeId)
    ensures forall r :: r in DfsWalk(p, root).1.rows ==> r.verdict.Rank() <= DfsWalk(p, root).0.Rank()
  {
    WalkVerdictIsWorst(p, root);
    RowBounds(DfsWalk(p, root).1.rows);
  }

  lemma {:induction false} WorstOfRootsMeaning(p: Params, roots: seq<NodeId>)
    ensures WorstOfRoots(p, roots).None? <==> roots == []
    ensures roots != [] ==> (WorstOfRoots(p, roots) == Some(Pass) <==> forall r :: r in roots ==> DfsWalk(p, r).0 == Pass)
  {
    if roots != [] {
      var (init, last) := (roots[..|roots| - 1], roots[|roots| - 1]);
      WorstOfRootsMeaning(p, init);
      assert forall r :: r in roots <==> r in init || r == last by {
        assert roots == init + [last];
      }
    }
  }

  /** The transitive scan leaves the exit code alone iff the budget held and every
      node reachable from any root is clean with nothing cut: a node below a clean
      direct dependency cannot be lost between the walk and the exit code. */
  lemma NoFailureVouchesForEveryRoot(p: Params, roots: seq<NodeId>, breach: Option<Breach>, outcome: Outcome)
    requires outcome.breach == breach
    requires breach.None? ==> outcome.worst == WorstOfRoots(p, roots)
    ensures !outcome.IsFailure() <==>
            && breach.None?
            && (forall r, n :: r in roots && Reaches(p, r, n) ==> Clean(p, n))
            && (forall r :: r in roots ==> NoCut(DfsWalk(p, r).1))
  {
    WorstOfRootsMeaning(p, roots);
    forall r | r in roots
      ensures DfsWalk(p, r).0 == Pass <==> (forall n :: Reaches(p, r, n) ==> Clean(p, n)) && NoCut(DfsWalk(p, r).1)
    {
      PassVouchesForEverythingReachable(p, r);
    }
  }
}
