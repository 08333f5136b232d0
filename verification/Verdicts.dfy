/** The verdict vocabulary shared by the flat scan and the transitive walk:
    per-policy details, the worst-wins aggregation, and its three-valued view. */
module Verdicts {

  datatype Option<+T> = None | Some(value: T)

  /** One policy's outcome; `result` is "pass", "warn" or "block". */
  datatype PolicyDetail = PolicyDetail(policyName: string, result: string, reason: Option<string>)

  datatype PolicyResult = PolicyPass | PolicyWarn(msg: string) | PolicyBlock(msg: string)

  function FromResult(policyName: string, r: PolicyResult): PolicyDetail {
    match r
    case PolicyPass => PolicyDetail(policyName, "pass", None)
    case PolicyWarn(msg) => PolicyDetail(policyName, "warn", Some(msg))
    case PolicyBlock(msg) => PolicyDetail(policyName, "block", Some(msg))
  }

  /** The index of the first detail with the given result, or the length. */
  function FirstWith(details: seq<PolicyDetail>, result: string): (i: nat)
    ensures i <= |details|
    ensures forall j :: 0 <= j < i ==> details[j].result != result
    ensures i < |details| ==> details[i].result == result
  {
    if details == [] || details[0].result == result then 0 else 1 + FirstWith(details[1..], result)
  }

  /** Worst outcome with the reason of the first detail that has it. */
  function AggregateResults(details: seq<PolicyDetail>): (string, Option<string>) {
    var b := FirstWith(details, "block");
    if b < |details| then ("block", details[b].reason)
    else
      var w := FirstWith(details, "warn");
      if w < |details| then ("warn", details[w].reason) else ("pass", None)
  }

  /** The two early-return loops of the aggregation. */
  method Aggregate(details: seq<PolicyDetail>) returns (result: string, reason: Option<string>)
    ensures (result, reason) == AggregateResults(details)
  {
    for i := 0 to |details|
      invariant forall j :: 0 <= j < i ==> details[j].result != "block"
    {
      if details[i].result == "block" { return "block", details[i].reason; }
    }
    for i := 0 to |details|
      invariant forall j :: 0 <= j < i ==> details[j].result != "warn"
    {
      if details[i].result == "warn" { return "warn", details[i].reason; }
    }
    return "pass", None;
  }

  /** Ordered by severity. */
  datatype Verdict = Pass | Warn | Block {
    function Rank(): nat {
      match this case Pass => 0 case Warn => 1 case Block => 2
    }
  }

  function Worse(a: Verdict, b: Verdict): (w: Verdict)
    ensures w.Rank() >= a.Rank() && w.Rank() >= b.Rank() && (w == a || w == b)
  {
    if a.Rank() < b.Rank() then b else a
  }

  function VerdictString(v: Verdict): string {
    match v case Pass => "pass" case Warn => "warn" case Block => "block"
  }

  /** Anything but "pass" and "block" fails closed to `Warn`. */
  function VerdictFromString(s: string): Verdict {
    if s == "pass" then Pass else if s == "block" then Block else Warn
  }

  function RollupDetails(vs: seq<Verdict>): seq<PolicyDetail> {
    seq(|vs|, i requires 0 <= i < |vs| => PolicyDetail("transitive_rollup", VerdictString(vs[i]), None))
  }

  /** The transitive rollup: the flat aggregation, applied to synthetic details. */
  function CombineVerdicts(vs: seq<Verdict>): Verdict {
    VerdictFromString(AggregateResults(RollupDetails(vs)).0)
  }

  /** The reference rollup: a plain worst-wins fold. */
  function Worst(vs: seq<Verdict>): Verdict {
    if vs == [] then Pass else Worse(Worst(vs[..|vs| - 1]), vs[|vs| - 1])
  }

  lemma {:induction false} WorstBounds(vs: seq<Verdict>)
    ensures forall v :: v in vs ==> v.Rank() <= Worst(vs).Rank()
    ensures Worst(vs) == Pass || Worst(vs) in vs
  {
    if vs != [] {
      WorstBounds(vs[..|vs| - 1]);
      assert vs == vs[..|vs| - 1] + [vs[|vs| - 1]];
    }
  }

  /** The string detour loses nothing: the aggregation of synthetic details is
      the worst-wins fold of the verdicts. */
  lemma CombineIsWorst(vs: seq<Verdict>)
    ensures CombineVerdicts(vs) == Worst(vs)
  {
    WorstBounds(vs);
    var ds := RollupDetails(vs);
    assert forall i :: 0 <= i < |vs| ==> ds[i].result == VerdictString(vs[i]);
    var b, w := FirstWith(ds, "block"), FirstWith(ds, "warn");
    if b < |ds| {
      assert vs[b] == Block;
      assert Block in vs;
    } else if w < |ds| {
      assert vs[w] == Warn;
      assert Warn in vs;
    }
  }

  /** Aggregation ignores order and multiplicity: it blocks iff some policy blocks,
      warns iff some policy warns and none blocks, and otherwise passes. */
  lemma AggregateMeaning(details: seq<PolicyDetail>)
    ensures AggregateResults(details).0 == "block" <==> exists d :: d in details && d.result == "block"
    ensures AggregateResults(details).0 == "warn" <==>
            (exists d :: d in details && d.result == "warn") && forall d :: d in details ==> d.result != "block"
    ensures AggregateResults(details).0 == "pass" <==> AggregateResults(details).0 !in {"block", "warn"}
    ensures AggregateResults(details).1.Some? ==> AggregateResults(details).0 != "pass"
  {
    var b, w := FirstWith(details, "block"), FirstWith(details, "warn");
    if b < |details| { assert details[b] in details; }
    if w < |details| { assert details[w] in details; }
  }
}
