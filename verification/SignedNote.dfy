/** Signed notes (the C2SP signed-note format): boundary detection, signature
    lines, and verification against one pinned key during key rotation. */
module SignedNote {
  import opened Bytes
  import opened Text
  import opened Verdicts
  import B64 = Base64

  const DASH: char := '\U{2014}'

  datatype NoteSignature = NoteSignature(keyName: string, keyId: seq<Byte>, sigBytes: seq<Byte>)

  datatype Note = Note(text: string, signatures: seq<NoteSignature>)

  datatype NoteError =
    | NoSignatureLines
    | MissingSeparator
    | EmptyText
    | NotEmDash(line: string)
    | Malformed(line: string)
    | BadBase64
    | TooShort(length: nat)

  datatype Parsed<+T> = Ok(value: T) | Err(error: NoteError)

  // ------------------------------------------------------------------
  // The parser as a specification
  // ------------------------------------------------------------------

  predicate LineStart(s: string, k: nat)
    requires k <= |s|
  {
    k == 0 || s[k - 1] == '\n'
  }

  /** The start of the first em-dash line at or after the line start `from`. */
  function DashFrom(s: string, from: nat): (k: Option<nat>)
    requires from <= |s|
    ensures k.Some? ==> from <= k.value < |s| && s[k.value] == DASH
    decreases |s| - from
  {
    if from < |s| && s[from] == DASH then Some(from)
    else
      var i := IndexFrom(s, '\n', from);
      if i == |s| then None else DashFrom(s, i + 1)
  }

  function DashIn(s: string): Option<nat> {
    DashFrom(s, 0)
  }

  /** Whether the line that ends just before the line start `k` is empty. */
  predicate BlankBefore(s: string, k: nat)
    requires k <= |s|
  {
    k > 0 && LineStart(s, k - 1)
  }

  datatype LineResult = Blank | Bad(error: NoteError) | Good(sig: NoteSignature)

  function ParsePayload(keyName: string, b64: string): LineResult {
    match B64.Decode(b64)
    case None => Bad(BadBase64)
    case Some(payload) =>
      if |payload| < 5 then Bad(TooShort(|payload|))
      else Good(NoteSignature(keyName, payload[..4], payload[4..]))
  }

  function ParseLine(raw: string): LineResult {
    var line := Trim(raw);
    if line == "" then Blank
    else if line[0] != DASH then Bad(NotEmDash(line))
    else
      var rest := Trim(line[1..]);
      var i := IndexOf(rest, ' ');
      if i == |rest| then Bad(Malformed(line)) else ParsePayload(rest[..i], rest[i + 1..])
  }

  function Prepend(sigs: seq<NoteSignature>, r: Parsed<seq<NoteSignature>>): Parsed<seq<NoteSignature>> {
    match r case Err(e) => Err(e) case Ok(more) => Ok(sigs + more)
  }

  /** All signatures, or the first error. */
  function ParseLines(lines: seq<string>): Parsed<seq<NoteSignature>> {
    if lines == [] then Ok([])
    else
      match ParseLine(lines[0])
      case Bad(e) => Err(e)
      case Blank => ParseLines(lines[1..])
      case Good(sig) => Prepend([sig], ParseLines(lines[1..]))
  }

  function ParseNote(s: string): Parsed<Note> {
    match DashIn(s)
    case None => Err(NoSignatureLines)
    case Some(k) =>
      if !BlankBefore(s, k) then Err(MissingSeparator)
      else if k == 1 then Err(EmptyText)
      else
        match ParseLines(Lines(TrimEndNewlines(s[k..])))
        case Err(e) => Err(e)
        case Ok(sigs) => if sigs == [] then Err(NoSignatureLines) else Ok(Note(s[..k - 1], sigs))
  }

  // ------------------------------------------------------------------
  // The parser as the source runs it
  // ------------------------------------------------------------------

  /** The search over the remaining lines. */
  function SearchLines(lines: seq<string>, byteOffset: nat, prevWasBlank: bool): (Option<nat>, bool) {
    if lines == [] then (None, prevWasBlank)
    else if lines[0] != "" && lines[0][0] == DASH then (Some(byteOffset), prevWasBlank)
    else SearchLines(lines[1..], byteOffset + ByteLen(lines[0]) + 1, lines[0] == "")
  }

  /** What the search should answer for the em-dash line found from `from` on. */
  predicate Found(s: string, k: Option<nat>, answer: (Option<nat>, bool))
    requires k.Some? ==> k.value <= |s|
  {
    if k.None? then answer.0 == None else answer == (Some(ByteLen(s[..k.value])), BlankBefore(s, k.value))
  }

  /** The search's answer from a line start. */
  function Search(s: string, from: nat): (Option<nat>, bool)
    requires from <= |s|
  {
    SearchLines(SplitFrom(s, '\n', from), ByteLen(s[..from]), BlankBefore(s, from))
  }

  /** The line-by-line search from a line start finds the byte offset of the first
      em-dash line and whether an empty line precedes it. */
  lemma {:induction false} SearchFindsDash(s: string, from: nat)
    requires from <= |s| && LineStart(s, from)
    ensures Found(s, DashFrom(s, from), Search(s, from))
    decreases |s| - from
  {
    SearchFirst(s, from, ByteLen(s[..from]), BlankBefore(s, from));
    var i := IndexFrom(s, '\n', from);
    if i < |s| && s[from] != DASH {
      SearchNext(s, from);
      NextLineBlank(s, from, i);
      SearchFindsDash(s, i + 1);
    }
  }

  lemma SearchNext(s: string, from: nat)
    requires from <= |s| && LineStart(s, from) && IndexFrom(s, '\n', from) < |s| && s[from] != DASH
    ensures Search(s, from) == Search(s, IndexFrom(s, '\n', from) + 1)
  {
    var i := IndexFrom(s, '\n', from);
    SearchFirst(s, from, ByteLen(s[..from]), BlankBefore(s, from));
    NextLineOffset(s, from, i);
    NextLineBlank(s, from, i);
  }

  lemma NextLineBlank(s: string, from: nat, i: nat)
    requires from <= i < |s| && LineStart(s, from) && i == IndexFrom(s, '\n', from)
    ensures LineStart(s, i + 1) && (BlankBefore(s, i + 1) <==> i == from)
  {
    assert from < i ==> s[i - 1] != '\n';
  }

  /** What the search does with its first line. */
  lemma SearchFirst(s: string, from: nat, byteOffset: nat, prevWasBlank: bool)
    requires from <= |s|
    ensures var i := IndexFrom(s, '\n', from);
            SearchLines(SplitFrom(s, '\n', from), byteOffset, prevWasBlank)
            == if from < |s| && s[from] == DASH then (Some(byteOffset), prevWasBlank)
               else if i == |s| then (None, i == from)
               else SearchLines(SplitFrom(s, '\n', i + 1), byteOffset + ByteLen(s[from..i]) + 1, i == from)
  {
    var i, lines := IndexFrom(s, '\n', from), SplitFrom(s, '\n', from);
    assert lines[0] == s[from..i] && (from < i ==> lines[0][0] == s[from]);
    assert lines[1..] == if i == |s| then [] else SplitFrom(s, '\n', i + 1);
  }

  lemma NextLineOffset(s: string, from: nat, i: nat)
    requires from <= i < |s| && s[i] == '\n'
    ensures ByteLen(s[..i + 1]) == ByteLen(s[..from]) + ByteLen(s[from..i]) + 1
  {
    assert s[..i + 1] == (s[..from] + s[from..i]) + ['\n'];
    ByteLenAppend(s[..from] + s[from..i], ['\n']);
    ByteLenAppend(s[..from], s[from..i]);
    assert ByteLen("\n") == 1;
  }

  method FindBoundary(s: string) returns (offset: Option<nat>, prevWasBlank: bool)
    ensures (offset, prevWasBlank) == SearchLines(SplitBy(s, '\n'), 0, false)
  {
    var byteOffset: nat := 0;
    prevWasBlank := false;
    var segments := SplitBy(s, '\n');
    assert segments[0..] == segments;
    for i := 0 to |segments|
      invariant SearchLines(segments, 0, false) == SearchLines(segments[i..], byteOffset, prevWasBlank)
    {
      var line := segments[i];
      assert segments[i..][0] == line && segments[i..][1..] == segments[i + 1..];
      if line != "" && line[0] == DASH {
        return Some(byteOffset), prevWasBlank;
      }
      prevWasBlank := line == "";
      byteOffset := byteOffset + ByteLen(line) + 1;
    }
    return None, prevWasBlank;
  }

  method ParseSection(lines: seq<string>) returns (r: Parsed<seq<NoteSignature>>)
    ensures r == ParseLines(lines)
  {
    var signatures: seq<NoteSignature> := [];
    PrependTwice([], NoteSignature("", [], []), ParseLines(lines));
    assert lines[0..] == lines;
    for i := 0 to |lines|
      invariant ParseLines(lines) == Prepend(signatures, ParseLines(lines[i..]))
    {
      assert lines[i..][0] == lines[i] && lines[i..][1..] == lines[i + 1..];
      match ParseLine(lines[i]) {
        case Blank =>
        case Bad(e) => return Err(e);
        case Good(sig) =>
          PrependTwice(signatures, sig, ParseLines(lines[i + 1..]));
          signatures := signatures + [sig];
      }
    }
    assert signatures + [] == signatures;
    return Ok(signatures);
  }

  method Parse(s: string) returns (r: Parsed<Note>)
    ensures r == ParseNote(s)
  {
    var offset, prevWasBlank := FindBoundary(s);
    SearchFindsDash(s, 0);
    if offset.None? { return Err(NoSignatureLines); }
    if !prevWasBlank { return Err(MissingSeparator); }
    ghost var k := DashIn(s).value;
    DashMeaning(s, 0);
    TextEndOffset(s, k);
    var textEnd, sectionStart := CharIndex(s, offset.value - 1), CharIndex(s, offset.value);
    // Both byte slices fall on character boundaries.
    assert textEnd == Some(k - 1) && sectionStart == Some(k);
    var text := s[..textEnd.value];
    if text == "" { return Err(EmptyText); }
    var section := ParseSection(Lines(TrimEndNewlines(s[sectionStart.value..])));
    match section {
      case Err(e) => return Err(e);
      case Ok(signatures) =>
        if signatures == [] { return Err(NoSignatureLines); }
        return Ok(Note(text, signatures));
    }
  }

  lemma PrependTwice(sigs: seq<NoteSignature>, sig: NoteSignature, r: Parsed<seq<NoteSignature>>)
    ensures Prepend(sigs, Prepend([sig], r)) == Prepend(sigs + [sig], r)
    ensures Prepend([], r) == r
  {
    if r.Ok? {
      assert [] + r.value == r.value;
      assert sigs + ([sig] + r.value) == (sigs + [sig]) + r.value;
    }
  }

  lemma TextEndOffset(s: string, k: nat)
    requires 0 < k <= |s| && s[k - 1] == '\n'
    ensures ByteLen(s[..k]) >= 1
    ensures CharIndex(s, ByteLen(s[..k]) - 1) == Some(k - 1) && CharIndex(s, ByteLen(s[..k])) == Some(k)
  {
    assert s[..k] == s[..k - 1] + "\n";
    ByteLenAppend(s[..k - 1], "\n");
    assert ByteLen("\n") == 1;
    CharIndexInverts(s, k - 1);
    CharIndexInverts(s, k);
  }

  /** Cutting the UTF-8 bytes at the offset that the line loop finds, and one before it,
      gives the signature section and the text of the note, never half a character. */
  lemma ByteSlicesAreText(s: string)
    requires DashIn(s).Some? && BlankBefore(s, DashIn(s).value)
    ensures var (k, offset) := (DashIn(s).value, SearchLines(SplitBy(s, '\n'), 0, false).0);
            && offset.Some? && 0 < offset.value <= |Utf8Bytes(s)|
            && Utf8Bytes(s)[..offset.value - 1] == Utf8Bytes(s[..k - 1])
            && Utf8Bytes(s)[offset.value..] == Utf8Bytes(s[k..])
  {
    var k := DashIn(s).value;
    SearchFindsDash(s, 0);
    DashMeaning(s, 0);
    assert s[..k] == s[..k - 1] + "\n";
    ByteLenAppend(s[..k - 1], "\n");
    assert ByteLen("\n") == 1;
    CutAtOffset(s, k - 1);
    CutAtOffset(s, k);
  }

  // ------------------------------------------------------------------
  // Printing, and the exact set of notes that survive it
  // ------------------------------------------------------------------

  function PrintLine(sig: NoteSignature): string {
    [DASH] + " " + sig.keyName + " " + B64.Encode(sig.keyId + sig.sigBytes)
  }

  function PrintLines(sigs: seq<NoteSignature>): (lines: seq<string>)
    ensures |lines| == |sigs|
  {
    seq(|sigs|, i requires 0 <= i < |sigs| => PrintLine(sigs[i]))
  }

  function Print(n: Note): string
    requires n.signatures != []
  {
    n.text + "\n" + JoinBy(PrintLines(n.signatures), '\n') + "\n"
  }

  /** A key name that can be written on a signature line. Names without any
      whitespace qualify. */
  predicate PlainName(name: string) {
    name != "" && !IsWhitespace(name[0]) && ' ' !in name && '\n' !in name
  }

  predicate PlainSignature(sig: NoteSignature) {
    PlainName(sig.keyName) && |sig.keyId| == 4 && sig.sigBytes != []
  }

  /** No line of `s` starts with an em-dash. */
  predicate NoDashLine(s: string) {
    forall k {:trigger LineStart(s, k)} :: 0 <= k < |s| && LineStart(s, k) ==> s[k] != DASH
  }

  predicate WellFormed(n: Note) {
    && n.text != "" && n.text[|n.text| - 1] == '\n' && NoDashLine(n.text)
    && n.signatures != [] && (forall sig :: sig in n.signatures ==> PlainSignature(sig))
  }

  /** The search returns the first em-dash line and misses none. */
  lemma {:induction false} DashMeaning(s: string, from: nat)
    requires from <= |s| && LineStart(s, from)
    ensures forall j {:trigger LineStart(s, j)} ::
              from <= j < |s| && LineStart(s, j) && (DashFrom(s, from).Some? ==> j < DashFrom(s, from).value) ==> s[j] != DASH
    ensures DashFrom(s, from).Some? ==> LineStart(s, DashFrom(s, from).value)
    decreases |s| - from
  {
    var i := IndexFrom(s, '\n', from);
    if i < |s| && s[from] != DASH {
      DashMeaning(s, i + 1);
    }
  }

  lemma DashFound(s: string, k: nat)
    requires k < |s| && LineStart(s, k) && s[k] == DASH
    requires forall j {:trigger LineStart(s, j)} :: 0 <= j < k && LineStart(s, j) ==> s[j] != DASH
    ensures DashIn(s) == Some(k)
  {
    DashMeaning(s, 0);
  }

  lemma {:induction false} EncodedIsPlain(b: seq<Byte>)
    ensures forall i :: 0 <= i < |B64.Encode(b)| ==> !IsWhitespace(B64.Encode(b)[i])
    decreases |b|
  {
    if |b| >= 3 {
      B64.EncodeUnfolds(b);
      EncodedIsPlain(b[3..]);
    }
  }

  lemma LineShape(name: string, b64: string)
    requires name != "" && b64 != ""
    ensures var line, rest := [DASH] + " " + name + " " + b64, name + " " + b64;
            && line[0] == DASH && line[1..] == " " + rest && rest[0] == name[0]
            && line[|line| - 1] == rest[|rest| - 1] == b64[|b64| - 1]
            && rest[..|name|] == name && rest[|name| + 1..] == b64
  {
    var rest := name + " " + b64;
    assert [DASH] + " " + name + " " + b64 == [DASH] + (" " + rest);
  }

  /** How a signature line comes apart. */
  lemma LineFields(name: string, b64: string)
    requires PlainName(name) && b64 != "" && !IsWhitespace(b64[|b64| - 1])
    ensures var line, rest := [DASH] + " " + name + " " + b64, name + " " + b64;
            Trim(line) == line && Trim(line[1..]) == rest && IndexOf(rest, ' ') == |name|
  {
    LineShape(name, b64);
    TrimKeeps([DASH] + " " + name + " " + b64);
    TrimSpace(name + " " + b64);
    IndexOfSeparator(name, ' ', b64);
  }

  lemma PrintedPayloadParses(sig: NoteSignature)
    requires PlainSignature(sig)
    ensures var b64 := B64.Encode(sig.keyId + sig.sigBytes);
            && b64 != "" && !IsWhitespace(b64[|b64| - 1]) && '\n' !in b64
            && ParsePayload(sig.keyName, b64) == Good(sig)
  {
    var payload := sig.keyId + sig.sigBytes;
    B64.DecodeEncode(payload);
    assert payload[..4] == sig.keyId && payload[4..] == sig.sigBytes;
    assert B64.Decode("") == Some([]);
    EncodedIsPlain(payload);
    assert IsWhitespace('\n');
  }

  lemma PrintedLineParses(sig: NoteSignature)
    requires PlainSignature(sig)
    ensures ParseLine(PrintLine(sig)) == Good(sig)
    ensures '\n' !in PrintLine(sig) && PrintLine(sig) != "" && PrintLine(sig)[0] == DASH
    ensures !IsWhitespace(PrintLine(sig)[|PrintLine(sig)| - 1])
  {
    PrintedPayloadParses(sig);
    LineShape(sig.keyName, B64.Encode(sig.keyId + sig.sigBytes));
    FieldsParse(sig.keyName, B64.Encode(sig.keyId + sig.sigBytes));
    NoNewline(sig.keyName, B64.Encode(sig.keyId + sig.sigBytes));
  }

  lemma NoNewline(name: string, b64: string)
    requires '\n' !in name && '\n' !in b64
    ensures '\n' !in [DASH] + " " + name + " " + b64
  {
    assert " "[0] == ' ';
  }

  lemma FieldsParse(name: string, b64: string)
    requires PlainName(name) && b64 != "" && !IsWhitespace(b64[|b64| - 1])
    ensures ParseLine([DASH] + " " + name + " " + b64) == ParsePayload(name, b64)
  {
    LineShape(name, b64);
    LineFields(name, b64);
  }

  lemma TrimSpace(rest: string)
    requires rest != "" && !IsWhitespace(rest[0]) && !IsWhitespace(rest[|rest| - 1])
    ensures Trim(" " + rest) == rest
  {
    assert (" " + rest)[1..] == rest;
    assert TrimStart(" " + rest) == TrimStart(rest) == rest;
  }

  lemma {:induction false} PrintedLinesParse(sigs: seq<NoteSignature>)
    requires forall sig :: sig in sigs ==> PlainSignature(sig)
    ensures ParseLines(PrintLines(sigs)) == Ok(sigs)
  {
    if sigs != [] {
      assert sigs[0] in sigs;
      PrintedLineParses(sigs[0]);
      PrintLinesTail(sigs);
      PrintedLinesParse(sigs[1..]);
      FirstLineGood(PrintLines(sigs), sigs[0]);
      assert sigs == [sigs[0]] + sigs[1..];
    }
  }

  lemma PrintLinesTail(sigs: seq<NoteSignature>)
    requires sigs != []
    ensures PrintLines(sigs)[0] == PrintLine(sigs[0]) && PrintLines(sigs)[1..] == PrintLines(sigs[1..])
  {
  }

  lemma FirstLineGood(lines: seq<string>, sig: NoteSignature)
    requires lines != [] && ParseLine(lines[0]) == Good(sig)
    ensures ParseLines(lines) == Prepend([sig], ParseLines(lines[1..]))
  {
  }

  lemma PrintedLinesArePlain(sigs: seq<NoteSignature>)
    requires forall sig :: sig in sigs ==> PlainSignature(sig)
    ensures forall i :: 0 <= i < |sigs| ==> var line := PrintLines(sigs)[i];
              line != "" && line[0] == DASH && '\n' !in line && !IsWhitespace(line[|line| - 1])
  {
    forall i | 0 <= i < |sigs|
      ensures var line := PrintLines(sigs)[i];
              line != "" && line[0] == DASH && '\n' !in line && !IsWhitespace(line[|line| - 1])
    {
      assert sigs[i] in sigs;
      PrintedLineParses(sigs[i]);
    }
  }

  /** The signature block: its lines are recovered and the final newline dropped. */
  lemma SectionLines(lines: seq<string>)
    requires lines != [] && forall i :: 0 <= i < |lines| ==> var line := lines[i];
               line != "" && line[0] == DASH && '\n' !in line && !IsWhitespace(line[|line| - 1])
    ensures var block := JoinBy(lines, '\n');
            && block != "" && block[0] == DASH
            && Lines(TrimEndNewlines(block + "\n")) == lines
  {
    var block := JoinBy(lines, '\n');
    JoinEnds(lines, '\n');
    assert (block + "\n")[..|block|] == block;
    assert TrimEndNewlines(block + "\n") == TrimEndNewlines(block) == block;
    LinesOfJoined(lines);
  }

  lemma {:induction false} JoinEnds<T>(pieces: seq<seq<T>>, c: T)
    requires pieces != [] && forall i :: 0 <= i < |pieces| ==> pieces[i] != []
    ensures var s := JoinBy(pieces, c);
            var last := pieces[|pieces| - 1];
            s != [] && s[0] == pieces[0][0] && s[|s| - 1] == last[|last| - 1]
  {
    if |pieces| > 1 {
      JoinEnds(pieces[1..], c);
    }
  }

  /** A text without em-dash lines, an empty line, and a block led by an em-dash. */
  lemma BoundaryOf(text: string, block: string)
    requires text != "" && text[|text| - 1] == '\n' && NoDashLine(text) && block != "" && block[0] == DASH
    ensures var s := text + "\n" + block;
            var k := |text| + 1;
            DashIn(s) == Some(k) && BlankBefore(s, k) && s[..k - 1] == text && s[k..] == block
  {
    var s, k := text + "\n" + block, |text| + 1;
    assert s[k - 1] == '\n' && s[k] == block[0] && LineStart(s, k);
    forall j | 0 <= j < k && LineStart(s, j) ensures s[j] != DASH {
      if j < |text| {
        assert LineStart(text, j) && s[j] == text[j];
      }
    }
    DashFound(s, k);
  }

  lemma PrintShape(n: Note)
    requires n.signatures != []
    ensures Print(n) == n.text + "\n" + (JoinBy(PrintLines(n.signatures), '\n') + "\n")
  {
  }

  /** What follows the boundary of a printed note reads back as its signatures. */
  lemma PrintedSectionParses(n: Note)
    requires WellFormed(n)
    ensures var block := JoinBy(PrintLines(n.signatures), '\n') + "\n";
            block[0] == DASH && ParseLines(Lines(TrimEndNewlines(block))) == Ok(n.signatures)
  {
    PrintedLinesArePlain(n.signatures);
    SectionLines(PrintLines(n.signatures));
    PrintedLinesParse(n.signatures);
  }

  lemma PrintedNoteParses(n: Note)
    requires WellFormed(n)
    ensures ParseNote(Print(n)) == Ok(n)
  {
    PrintedSectionParses(n);
    PrintShape(n);
    var block := JoinBy(PrintLines(n.signatures), '\n') + "\n";
    BoundaryOf(n.text, block);
    PartsParse(Print(n), |n.text| + 1, n.text, block, n.signatures);
  }

  lemma PartsParse(s: string, k: nat, text: string, block: string, sigs: seq<NoteSignature>)
    requires 1 < k <= |s| && DashIn(s) == Some(k) && BlankBefore(s, k) && s[..k - 1] == text && s[k..] == block
    requires sigs != [] && ParseLines(Lines(TrimEndNewlines(block))) == Ok(sigs)
    ensures ParseNote(s) == Ok(Note(text, sigs))
  {
  }

  lemma ParsedLineIsPlain(raw: string)
    requires '\n' !in raw && ParseLine(raw).Good?
    ensures PlainSignature(ParseLine(raw).sig)
  {
    var i, j := TrimIsInside(raw);
    var line := Trim(raw);
    var k, l := TrimIsInside(line[1..]);
    var rest := Trim(line[1..]);
    assert '\n' !in line && '\n' !in line[1..] && '\n' !in rest;
    var at := IndexOf(rest, ' ');
    assert PlainName(rest[..at]);
  }

  lemma {:induction false} ParsedLinesArePlain(lines: seq<string>)
    requires (forall i :: 0 <= i < |lines| ==> '\n' !in lines[i]) && ParseLines(lines).Ok?
    ensures forall sig :: sig in ParseLines(lines).value ==> PlainSignature(sig)
  {
    if lines != [] {
      ParsedLinesArePlain(lines[1..]);
      if ParseLine(lines[0]).Good? {
        ParsedLineIsPlain(lines[0]);
      }
    }
  }

  /** Every accepted input is its text, an empty line, and the rest from its first
      em-dash line; and what is read off it is well formed. */
  lemma AcceptedShape(s: string)
    requires ParseNote(s).Ok?
    ensures var n := ParseNote(s).value;
            var k := |n.text| + 1;
            && WellFormed(n)
            && k < |s| && s == n.text + "\n" + s[k..] && s[k] == DASH
            && (forall j {:trigger LineStart(s, j)} :: 0 <= j < k && LineStart(s, j) ==> s[j] != DASH)
  {
    DashMeaning(s, 0);
    var n, k := ParseNote(s).value, DashIn(s).value;
    assert n.text == s[..k - 1];
    LinesHaveNoNewline(TrimEndNewlines(s[k..]));
    ParsedLinesArePlain(Lines(TrimEndNewlines(s[k..])));
    AcceptedText(s, k);
  }

  lemma AcceptedText(s: string, k: nat)
    requires 1 < k < |s| && LineStart(s, k) && BlankBefore(s, k)
    requires forall j {:trigger LineStart(s, j)} :: 0 <= j < k && LineStart(s, j) ==> s[j] != DASH
    ensures s[k - 2] == '\n' && NoDashLine(s[..k - 1]) && s == s[..k - 1] + "\n" + s[k..]
  {
    forall j | 0 <= j < k - 1 && LineStart(s[..k - 1], j) ensures s[j] != DASH {
      assert LineStart(s, j);
    }
  }

  /** Printing and parsing returns the note iff its text is a non-empty,
      newline-terminated text without em-dash lines and its signatures are plain. */
  lemma RoundTripIff(n: Note)
    requires n.signatures != []
    ensures ParseNote(Print(n)) == Ok(n) <==> WellFormed(n)
  {
    if WellFormed(n) {
      PrintedNoteParses(n);
    } else if ParseNote(Print(n)).Ok? {
      AcceptedShape(Print(n));
    }
  }

  /** Re-printing an accepted note loses nothing: blank lines, stray whitespace and
      carriage returns in the signature block carry no meaning. */
  lemma ReprintingPreservesMeaning(s: string)
    requires ParseNote(s).Ok?
    ensures ParseNote(Print(ParseNote(s).value)) == ParseNote(s)
  {
    AcceptedShape(s);
    PrintedNoteParses(ParseNote(s).value);
  }

  // ------------------------------------------------------------------
  // Verification against one pinned key
  // ------------------------------------------------------------------

  datatype Scheme = Ed25519 | EcdsaP256

  /** The cryptography: SHA-256, which byte strings are keys, which are DER signatures,
      and the check of a signature over a text. */
  datatype Crypto = Crypto(
    sha256: seq<Byte> -> seq<Byte>,
    isKey: seq<Byte> -> bool,
    isDer: seq<Byte> -> bool,
    check: (seq<Byte>, seq<Byte>, seq<Byte>) -> bool)

  function First4(digest: seq<Byte>): seq<Byte> {
    if |digest| < 4 then digest else digest[..4]
  }

  function KeyIdPreimage(keyName: string, key: seq<Byte>): seq<Byte> {
    Utf8Bytes(keyName) + [10] + key
  }

  method Ed25519KeyId(c: Crypto, keyName: string, key: seq<Byte>) returns (id: seq<Byte>)
    ensures id == First4(c.sha256(KeyIdPreimage(keyName, key)))
  {
    var fed: seq<Byte> := [];
    fed := fed + Utf8Bytes(keyName);
    fed := fed + [10];
    fed := fed + key;
    assert fed == KeyIdPreimage(keyName, key);
    return First4(c.sha256(fed));
  }

  /** For keys of one size, the hashed bytes determine the name and the key. */
  lemma KeyIdPreimageInjective(name1: string, key1: seq<Byte>, name2: string, key2: seq<Byte>)
    requires |key1| == |key2| && KeyIdPreimage(name1, key1) == KeyIdPreimage(name2, key2)
    ensures name1 == name2 && key1 == key2
  {
    SplitAtSamePlace(Utf8Bytes(name1), key1, Utf8Bytes(name2), key2, 10);
    Utf8Injective(name1, name2);
  }

  datatype Key = Key(name: string, bytes: seq<Byte>)

  /** `<name>+<id>+<base64>`; the id field is not consulted. */
  function ParseKey(keyStr: string, c: Crypto): Option<Key> {
    var i := IndexOf(keyStr, '+');
    if i == |keyStr| then None
    else
      var rest := keyStr[i + 1..];
      var j := IndexOf(rest, '+');
      if j == |rest| then None
      else
        match B64.Decode(rest[j + 1..])
        case None => None
        case Some(key) =>
          if |key| == 33 && key[0] == 1 && c.isKey(key[1..]) then Some(Key(keyStr[..i], key)) else None
  }

  /** Ed25519 signatures have 64 bytes, ECDSA signatures are DER. */
  predicate IsSignature(scheme: Scheme, sigBytes: seq<Byte>, c: Crypto) {
    if scheme.Ed25519? then |sigBytes| == 64 else c.isDer(sigBytes)
  }

  /** A line counts if it names the key, carries its id, and checks out. */
  predicate Accepts(sig: NoteSignature, scheme: Scheme, name: string, id: seq<Byte>, c: Crypto, key: seq<Byte>,
                    text: string) {
    && sig.keyName == name && sig.keyId == id
    && IsSignature(scheme, sig.sigBytes, c) && c.check(key, Utf8Bytes(text), sig.sigBytes)
  }

  predicate SomeLineAccepted(n: Note, scheme: Scheme, name: string, id: seq<Byte>, c: Crypto, key: seq<Byte>) {
    exists sig :: sig in n.signatures && Accepts(sig, scheme, name, id, c, key, n.text)
  }

  predicate Ed25519Valid(s: string, keyStr: string, c: Crypto) {
    match (ParseKey(keyStr, c), ParseNote(s))
    case (Some(key), Ok(n)) =>
      SomeLineAccepted(n, Ed25519, key.name, First4(c.sha256(KeyIdPreimage(key.name, key.bytes))), c, key.bytes[1..])
    case _ => false
  }

  /** The verification loop: skips other names, other ids, malformed signatures and
      failed checks, and stops at the first success. */
  method FindAccepted(n: Note, scheme: Scheme, name: string, id: seq<Byte>, c: Crypto, key: seq<Byte>)
    returns (found: bool)
    ensures found <==> SomeLineAccepted(n, scheme, name, id, c, key)
  {
    for i := 0 to |n.signatures|
      invariant forall j :: 0 <= j < i ==> !Accepts(n.signatures[j], scheme, name, id, c, key, n.text)
    {
      var sig := n.signatures[i];
      assert sig in n.signatures;
      if sig.keyName != name { continue; }
      if sig.keyId != id { continue; }
      if !IsSignature(scheme, sig.sigBytes, c) { continue; }
      if c.check(key, Utf8Bytes(n.text), sig.sigBytes) {
        return true;
      }
    }
    return false;
  }

  method VerifyEd25519(s: string, keyStr: string, c: Crypto) returns (valid: bool)
    ensures valid <==> Ed25519Valid(s, keyStr, c)
  {
    var key := ParseKey(keyStr, c);
    if key.None? { return false; }
    var expectedId := Ed25519KeyId(c, key.value.name, key.value.bytes);
    var parsed := Parse(s);
    if parsed.Err? { return false; }
    valid := FindAccepted(parsed.value, Ed25519, key.value.name, expectedId, c, key.value.bytes[1..]);
  }

  /** The last 65 bytes of the key info, if they are an uncompressed point. */
  function ExtractPoint(spki: seq<Byte>): Option<seq<Byte>> {
    if |spki| < 65 || spki[|spki| - 65] != 4 then None else Some(spki[|spki| - 65..])
  }

  predicate EcdsaValid(s: string, name: string, spki: seq<Byte>, c: Crypto) {
    match (ExtractPoint(spki), ParseNote(s))
    case (Some(point), Ok(n)) => c.isKey(point) && SomeLineAccepted(n, EcdsaP256, name, First4(c.sha256(spki)), c, point)
    case _ => false
  }

  /** Returns the note it parsed, so that the caller need not parse it again. */
  method VerifyEcdsa(s: string, name: string, spki: seq<Byte>, c: Crypto) returns (n: Option<Note>)
    ensures n == if EcdsaValid(s, name, spki, c) then Some(ParseNote(s).value) else None
  {
    var expectedId := First4(c.sha256(spki));
    var point := ExtractPoint(spki);
    if point.None? || !c.isKey(point.value) { return None; }
    var parsed := Parse(s);
    if parsed.Err? { return None; }
    var found := FindAccepted(parsed.value, EcdsaP256, name, expectedId, c, point.value);
    return if found then Some(parsed.value) else None;
  }

  /** Reordering the lines of a note changes no verdict, and adding lines can only
      turn a failure into a success: during a rotation, a note signed under the old
      and the new key is accepted under either, in any order. */
  lemma LineOrderAndExtraLines(n: Note, m: Note, keyStr: string, name: string, spki: seq<Byte>, c: Crypto)
    requires WellFormed(n) && WellFormed(m) && n.text == m.text
    requires multiset(n.signatures) <= multiset(m.signatures)
    ensures Ed25519Valid(Print(n), keyStr, c) ==> Ed25519Valid(Print(m), keyStr, c)
    ensures EcdsaValid(Print(n), name, spki, c) ==> EcdsaValid(Print(m), name, spki, c)
    ensures multiset(n.signatures) == multiset(m.signatures) ==>
              && Ed25519Valid(Print(n), keyStr, c) == Ed25519Valid(Print(m), keyStr, c)
              && EcdsaValid(Print(n), name, spki, c) == EcdsaValid(Print(m), name, spki, c)
  {
    PrintedNoteParses(n);
    PrintedNoteParses(m);
    forall sig | sig in n.signatures ensures sig in m.signatures {
      assert sig in multiset(n.signatures);
    }
    if multiset(n.signatures) == multiset(m.signatures) {
      forall sig | sig in m.signatures ensures sig in n.signatures {
        assert sig in multiset(m.signatures);
      }
    }
  }

  /** A freshly signed line makes a note verify under its key, whatever other
      well-formed lines surround it. */
  lemma SignedLineVerifies(n: Note, before: seq<NoteSignature>, after: seq<NoteSignature>,
                           keyStr: string, sigBytes: seq<Byte>, c: Crypto)
    requires ParseKey(keyStr, c).Some? && |sigBytes| == 64
    requires c.check(ParseKey(keyStr, c).value.bytes[1..], Utf8Bytes(n.text), sigBytes)
    requires var key := ParseKey(keyStr, c).value;
             n.signatures == before
               + [NoteSignature(key.name, First4(c.sha256(KeyIdPreimage(key.name, key.bytes))), sigBytes)] + after
    requires WellFormed(n)
    ensures Ed25519Valid(Print(n), keyStr, c)
  {
    PrintedNoteParses(n);
    assert n.signatures[|before|] in n.signatures;
  }
}
