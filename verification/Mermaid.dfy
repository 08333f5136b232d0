/** The documentation linter's block finder and the line numbers of its issues. */
module Mermaid {
  import opened Text
  import opened Verdicts

  // ------------------------------------------------------------------
  // Fences
  // ------------------------------------------------------------------

  /** Python's idea of whitespace: the Unicode property and four separators. */
  predicate IsSpace(c: char) {
    IsWhitespace(c) || 0x1C <= c as int <= 0x1F
  }

  function LStrip(s: string): string {
    if s == "" || !IsSpace(s[0]) then s else LStrip(s[1..])
  }

  function Strip(s: string): string {
    if s == "" || !IsSpace(s[|s| - 1]) then LStrip(s) else Strip(s[..|s| - 1])
  }

  predicate Backticks(s: string) {
    |s| >= 3 && forall i :: 0 <= i < |s| ==> s[i] == '`'
  }

  predicate Opens(line: string) {
    var s := Strip(line);
    |s| >= 7 && s[|s| - 7..] == "mermaid" && Backticks(s[..|s| - 7])
  }

  predicate Closes(line: string) {
    Backticks(Strip(line))
  }

  datatype Kind = Opening | Closing | Plain

  function KindOf(line: string): Kind {
    if Opens(line) then Opening else if Closes(line) then Closing else Plain
  }

  /** No line both opens and closes, so each has one kind. */
  lemma OneKind(line: string)
    ensures KindOf(line).Opening? <==> Opens(line)
    ensures KindOf(line).Closing? <==> Closes(line)
  {
    var s := Strip(line);
    if Opens(line) {
      assert s[|s| - 7..][0] == 'm';
    }
  }

  function Kinds(lines: seq<string>): (kinds: seq<Kind>)
    ensures |kinds| == |lines|
  {
    seq(|lines|, i requires 0 <= i < |lines| => KindOf(lines[i]))
  }

  // ------------------------------------------------------------------
  // Blocks
  // ------------------------------------------------------------------

  /** A block with the 1-based number of its first body line. */
  datatype Block = MermaidBlock(start: nat, body: seq<string>)

  function First(kinds: seq<Kind>, kind: Kind, from: nat): (i: nat)
    requires from <= |kinds|
    ensures from <= i <= |kinds|
    ensures i < |kinds| ==> kinds[i] == kind
    decreases |kinds| - from
  {
    if from == |kinds| || kinds[from] == kind then from else First(kinds, kind, from + 1)
  }

  lemma {:induction false} NoneBefore(kinds: seq<Kind>, kind: Kind, from: nat)
    requires from <= |kinds|
    ensures forall j :: from <= j < First(kinds, kind, from) ==> kinds[j] != kind
    decreases |kinds| - from
  {
    if from < |kinds| && kinds[from] != kind {
      NoneBefore(kinds, kind, from + 1);
    }
  }

  /** From the next opening fence to the next closing fence, again and again; a block
      that is never closed is ignored. */
  function BlocksFrom(lines: seq<string>, kinds: seq<Kind>, from: nat): seq<Block>
    requires from <= |kinds| == |lines|
    decreases |lines| - from
  {
    var i := First(kinds, Opening, from);
    if i == |lines| then []
    else
      var j := First(kinds, Closing, i + 1);
      if j == |lines| then [] else [MermaidBlock(i + 2, lines[i + 1..j])] + BlocksFrom(lines, kinds, j + 1)
  }

  function Blocks(lines: seq<string>): seq<Block> {
    BlocksFrom(lines, Kinds(lines), 0)
  }

  /** What is still to be yielded from line `i` on, given the pending block. */
  function Remaining(lines: seq<string>, kinds: seq<Kind>, i: nat, cur: Option<Block>): seq<Block>
    requires i <= |kinds| == |lines|
    decreases |lines| - i
  {
    if i == |lines| then []
    else if cur.None? then Remaining(lines, kinds, i + 1, if kinds[i].Opening? then Some(MermaidBlock(i + 2, [])) else None)
    else if kinds[i].Closing? then [cur.value] + Remaining(lines, kinds, i + 1, None)
    else Remaining(lines, kinds, i + 1, Some(cur.value.(body := cur.value.body + [lines[i]])))
  }

  lemma BlocksSkip(lines: seq<string>, kinds: seq<Kind>, i: nat)
    requires i < |kinds| == |lines| && !kinds[i].Opening?
    ensures BlocksFrom(lines, kinds, i) == BlocksFrom(lines, kinds, i + 1)
  {
    assert First(kinds, Opening, i) == First(kinds, Opening, i + 1);
  }

  lemma BlocksOpen(lines: seq<string>, kinds: seq<Kind>, from: nat)
    requires from <= |kinds| == |lines| && First(kinds, Opening, from) < |kinds|
    ensures var i := First(kinds, Opening, from);
            var j := First(kinds, Closing, i + 1);
            BlocksFrom(lines, kinds, from) ==
              if j == |lines| then [] else [MermaidBlock(i + 2, lines[i + 1..j])] + BlocksFrom(lines, kinds, j + 1)
  {
  }

  /** The pending block, closed by the next closing fence, and the blocks after it. */
  function Closed(lines: seq<string>, kinds: seq<Kind>, i: nat, b: Block): seq<Block>
    requires i <= |kinds| == |lines|
  {
    var j := First(kinds, Closing, i);
    if j == |lines| then [] else [MermaidBlock(b.start, b.body + lines[i..j])] + BlocksFrom(lines, kinds, j + 1)
  }

  lemma {:induction false} OpensThenCloses(lines: seq<string>, kinds: seq<Kind>, i: nat)
    requires i < |kinds| == |lines| && kinds[i].Opening?
    ensures BlocksFrom(lines, kinds, i) == Closed(lines, kinds, i + 1, MermaidBlock(i + 2, []))
  {
    var j := First(kinds, Closing, i + 1);
    assert [] + lines[i + 1..j] == lines[i + 1..j];
  }

  lemma {:induction false} RemainingIsBlocks(lines: seq<string>, kinds: seq<Kind>, i: nat)
    requires i <= |kinds| == |lines|
    ensures Remaining(lines, kinds, i, None) == BlocksFrom(lines, kinds, i)
    decreases |lines| - i, 0
  {
    if i < |lines| {
      if kinds[i].Opening? {
        RemainingCloses(lines, kinds, i + 1, MermaidBlock(i + 2, []));
        OpensThenCloses(lines, kinds, i);
      } else {
        RemainingIsBlocks(lines, kinds, i + 1);
        BlocksSkip(lines, kinds, i);
      }
    }
  }

  lemma {:induction false} RemainingCloses(lines: seq<string>, kinds: seq<Kind>, i: nat, b: Block)
    requires i <= |kinds| == |lines|
    ensures Remaining(lines, kinds, i, Some(b)) == Closed(lines, kinds, i, b)
    decreases |lines| - i, 1
  {
    if i < |lines| {
      if kinds[i].Closing? {
        assert b.body + lines[i..i] == b.body;
        RemainingIsBlocks(lines, kinds, i + 1);
      } else {
        var j := First(kinds, Closing, i + 1);
        RemainingCloses(lines, kinds, i + 1, MermaidBlock(b.start, b.body + [lines[i]]));
        assert b.body + [lines[i]] + lines[i + 1..j] == b.body + lines[i..j];
      }
    }
  }

  /** The line loop over the pending block. */
  method FindBlocks(lines: seq<string>) returns (blocks: seq<Block>)
    ensures blocks == Blocks(lines)
  {
    ghost var kinds := Kinds(lines);
    RemainingIsBlocks(lines, kinds, 0);
    blocks := [];
    var cur: Option<Block> := None;
    for i := 0 to |lines|
      invariant blocks + Remaining(lines, kinds, i, cur) == Blocks(lines)
    {
      OneKind(lines[i]);
      if cur.None? && Opens(lines[i]) {
        cur := Some(MermaidBlock(i + 2, []));
        continue;
      }
      if cur.Some? && Closes(lines[i]) {
        blocks := blocks + [cur.value];
        cur := None;
        continue;
      }
      if cur.Some? {
        cur := Some(cur.value.(body := cur.value.body + [lines[i]]));
      }
    }
  }

  /** Fenced where it says it is: the line before the body opens, the line after it
      closes, and no line of the body does. */
  predicate Fenced(lines: seq<string>, kinds: seq<Kind>, b: Block)
    requires |kinds| == |lines|
  {
    && 2 <= b.start
    && b.start - 1 + |b.body| < |lines|
    && b.body == lines[b.start - 1..b.start - 1 + |b.body|]
    && kinds[b.start - 2].Opening?
    && kinds[b.start - 1 + |b.body|].Closing?
    && forall k :: b.start - 1 <= k < b.start - 1 + |b.body| ==> !kinds[k].Closing?
  }

  /** The 0-based line after a block's closing fence. */
  function EndOf(b: Block): nat {
    b.start + |b.body|
  }

  lemma NextBlockIsFenced(lines: seq<string>, kinds: seq<Kind>, i: nat)
    requires i < |kinds| == |lines| && kinds[i].Opening? && First(kinds, Closing, i + 1) < |lines|
    ensures var j := First(kinds, Closing, i + 1);
            Fenced(lines, kinds, MermaidBlock(i + 2, lines[i + 1..j])) && EndOf(MermaidBlock(i + 2, lines[i + 1..j])) == j + 1
  {
    NoneBefore(kinds, Closing, i + 1);
  }

  /** Every block is fenced, and starts after the fence that closes the block before. */
  lemma {:induction false} BlocksAreFenced(lines: seq<string>, kinds: seq<Kind>, from: nat, k: nat)
    requires from <= |kinds| == |lines| && k < |BlocksFrom(lines, kinds, from)|
    ensures var all := BlocksFrom(lines, kinds, from);
            Fenced(lines, kinds, all[k]) && (if k == 0 then from else EndOf(all[k - 1])) + 2 <= all[k].start
    decreases |lines| - from
  {
    var i := First(kinds, Opening, from);
    var j := First(kinds, Closing, i + 1);
    BlocksOpen(lines, kinds, from);
    NextBlockIsFenced(lines, kinds, i);
    if k > 0 {
      BlocksAreFenced(lines, kinds, j + 1, k - 1);
    }
  }

  /** A line outside every block. */
  predicate Outside(blocks: seq<Block>, n: nat) {
    forall k :: 0 <= k < |blocks| ==> n < blocks[k].start - 2 || EndOf(blocks[k]) <= n
  }

  lemma {:induction false} FirstLater(kinds: seq<Kind>, kind: Kind, from: nat, later: nat)
    requires from <= later <= |kinds| && First(kinds, kind, from) == |kinds|
    ensures First(kinds, kind, later) == |kinds|
    decreases later - from
  {
    if from < later {
      FirstLater(kinds, kind, from + 1, later);
    }
  }

  /** Nothing else is a block: an opening fence outside every block is never closed. */
  lemma {:induction false} OpeningOutsideIsUnclosed(lines: seq<string>, kinds: seq<Kind>, from: nat, n: nat)
    requires from <= n < |kinds| == |lines| && kinds[n].Opening? && Outside(BlocksFrom(lines, kinds, from), n)
    ensures First(kinds, Closing, n + 1) == |kinds|
    decreases |lines| - from
  {
    NoneBefore(kinds, Opening, from);
    var i := First(kinds, Opening, from);
    var j := First(kinds, Closing, i + 1);
    BlocksOpen(lines, kinds, from);
    if j < |lines| {
      var b := MermaidBlock(i + 2, lines[i + 1..j]);
      OutsideRest(b, BlocksFrom(lines, kinds, j + 1), n);
      assert EndOf(b) == j + 1;
      OpeningOutsideIsUnclosed(lines, kinds, j + 1, n);
    } else {
      FirstLater(kinds, Closing, i + 1, n + 1);
    }
  }

  lemma OutsideRest(b: Block, rest: seq<Block>, n: nat)
    requires Outside([b] + rest, n)
    ensures n < b.start - 2 || EndOf(b) <= n
    ensures Outside(rest, n)
  {
    var all := [b] + rest;
    assert all[0] == b && forall k :: 0 <= k < |rest| ==> all[k + 1] == rest[k];
  }

  // ------------------------------------------------------------------
  // Issues
  // ------------------------------------------------------------------

  datatype Issue = Issue(line: nat, message: string, source: string)

  /** What the rules say about a line, given whether the block is a sequence diagram. */
  type Rules = (bool, string) -> seq<string>

  predicate IsComment(line: string) {
    "%%" <= LStrip(line)
  }

  function LineIssues(rules: Rules, sequence: bool, number: nat, line: string): seq<Issue> {
    if IsComment(line) then []
    else
      var messages := rules(sequence, line);
      seq(|messages|, i requires 0 <= i < |messages| => Issue(number, messages[i], line))
  }

  function BlockIssues(rules: Rules, sequence: bool, b: Block): seq<Issue>
    decreases |b.body|
  {
    if b.body == [] then []
    else
      var last := |b.body| - 1;
      BlockIssues(rules, sequence, MermaidBlock(b.start, b.body[..last]))
      + LineIssues(rules, sequence, b.start + last, b.body[last])
  }

  lemma BlockIssuesPush(rules: Rules, sequence: bool, start: nat, body: seq<string>, i: nat)
    requires i < |body|
    ensures var before := BlockIssues(rules, sequence, MermaidBlock(start, body[..i]));
            BlockIssues(rules, sequence, MermaidBlock(start, body[..i + 1]))
            == if IsComment(body[i]) then before else before + LineIssues(rules, sequence, start + i, body[i])
  {
    assert body[..i + 1][..i] == body[..i];
    assert BlockIssues(rules, sequence, MermaidBlock(start, body[..i])) + [] == BlockIssues(rules, sequence, MermaidBlock(start, body[..i]));
  }

  method LintBlock(rules: Rules, sequence: bool, b: Block) returns (issues: seq<Issue>)
    ensures issues == BlockIssues(rules, sequence, b)
  {
    issues := [];
    for offset := 0 to |b.body|
      invariant issues == BlockIssues(rules, sequence, MermaidBlock(b.start, b.body[..offset]))
    {
      BlockIssuesPush(rules, sequence, b.start, b.body, offset);
      if IsComment(b.body[offset]) { continue; }
      issues := issues + LineIssues(rules, sequence, b.start + offset, b.body[offset]);
    }
    assert b.body[..|b.body|] == b.body;
  }

  /** An issue of a block is what the rules say about one of its lines, under that
      line's number; and nothing the rules say about its lines is missing. */
  lemma {:induction false} BlockIssuesMeaning(rules: Rules, sequence: bool, b: Block, i: Issue)
    ensures i in BlockIssues(rules, sequence, b) <==>
              b.start <= i.line < b.start + |b.body| && i.source == b.body[i.line - b.start]
              && !IsComment(i.source) && i.message in rules(sequence, i.source)
    decreases |b.body|
  {
    if b.body != [] {
      var last := |b.body| - 1;
      var init := MermaidBlock(b.start, b.body[..last]);
      BlockIssuesMeaning(rules, sequence, init, i);
      LineIssuesMeaning(rules, sequence, b.start + last, b.body[last], i);
    }
  }

  lemma LineIssuesMeaning(rules: Rules, sequence: bool, number: nat, line: string, i: Issue)
    ensures i in LineIssues(rules, sequence, number, line) <==>
              i.line == number && i.source == line && !IsComment(line) && i.message in rules(sequence, line)
  {
    var issues := LineIssues(rules, sequence, number, line);
    if i.line == number && i.source == line && !IsComment(line) && i.message in rules(sequence, line) {
      var k :| 0 <= k < |rules(sequence, line)| && rules(sequence, line)[k] == i.message;
      assert issues[k] == i;
    }
  }

  lemma FencedLine(lines: seq<string>, b: Block, number: nat)
    requires Fenced(lines, Kinds(lines), b) && b.start <= number < b.start + |b.body|
    ensures 1 <= number <= |lines| && lines[number - 1] == b.body[number - b.start]
  {
  }

  lemma FencedIssue(rules: Rules, sequence: bool, lines: seq<string>, b: Block, i: Issue)
    requires Fenced(lines, Kinds(lines), b) && i in BlockIssues(rules, sequence, b)
    ensures 1 <= i.line <= |lines| && lines[i.line - 1] == i.source
  {
    BlockIssuesMeaning(rules, sequence, b, i);
    FencedLine(lines, b, i.line);
  }

  /** An issue's number is the number, counted from one, of the file line it quotes. */
  lemma IssuesPointAtTheirLines(rules: Rules, sequence: bool, lines: seq<string>, k: nat, i: Issue)
    requires k < |Blocks(lines)| && i in BlockIssues(rules, sequence, Blocks(lines)[k])
    ensures 1 <= i.line <= |lines| && lines[i.line - 1] == i.source
  {
    BlocksAreFenced(lines, Kinds(lines), 0, k);
    FencedIssue(rules, sequence, lines, Blocks(lines)[k], i);
  }
}
