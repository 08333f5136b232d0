/** Reading a requirements file, and exactly which lines make the reader panic. */
module Requirements {
  import opened Verdicts
  import opened Text

  datatype Requirement = Requirement(name: string, version: string)

  /** The two-byte slice at a byte offset may end inside a character, which panics. */
  datatype Search = NotFound | Found(offset: nat) | SlicePanic

  predicate IsOperator(s: string) {
    s == ">=" || s == "<=" || s == "~=" || s == "!="
  }

  // ------------------------------------------------------------------
  // Characters and bytes
  // ------------------------------------------------------------------

  lemma {:induction false} CharIndexSound(s: string, offset: nat)
    ensures CharIndex(s, offset).Some? ==>
              CharIndex(s, offset).value <= |s| && ByteLen(s[..CharIndex(s, offset).value]) == offset
  {
    if ByteLen(s) == offset {
      assert s[..|s|] == s;
    } else if s != "" {
      var init := s[..|s| - 1];
      CharIndexSound(init, offset);
      if CharIndex(init, offset).Some? {
        assert init[..CharIndex(init, offset).value] == s[..CharIndex(init, offset).value];
      }
    }
  }

  lemma PrefixBytes(s: string, j: nat, k: nat)
    requires j < k <= |s|
    ensures ByteLen(s[..j]) < ByteLen(s[..k])
  {
    assert s[..k][..j] == s[..j];
    ByteLenGrows(s[..k], j);
  }

  lemma NextByte(s: string, k: nat)
    requires k < |s|
    ensures ByteLen(s[..k + 1]) == ByteLen(s[..k]) + Utf8Len(s[k])
  {
    assert s[..k + 1][..k] == s[..k];
  }

  /** A slice of two bytes from a character is cut inside a character. */
  predicate Splits(s: string, k: nat)
    requires k < |s|
  {
    Utf8Len(s[k]) > 2 || (Utf8Len(s[k]) == 1 && k + 1 < |s| && Utf8Len(s[k + 1]) > 1)
  }

  predicate OperatorAt(s: string, k: nat)
    requires k < |s|
  {
    k + 2 <= |s| && IsOperator(s[k..k + 2])
  }

  lemma BoundaryAt(s: string, offset: nat, j: nat)
    requires j <= |s| && ByteLen(s[..j]) == offset
    ensures CharIndex(s, offset) == Some(j)
  {
    CharIndexInverts(s, j);
  }

  lemma NoBoundaryBetween(s: string, offset: nat, j: nat)
    requires j < |s| && ByteLen(s[..j]) < offset < ByteLen(s[..j + 1])
    ensures CharIndex(s, offset).None?
  {
    CharIndexSound(s, offset);
    if CharIndex(s, offset).Some? {
      var i := CharIndex(s, offset).value;
      if i < j { PrefixBytes(s, i, j); }
      if i > j + 1 { PrefixBytes(s, j + 1, i); }
    }
  }

  /** Whether a two-byte slice from the character at `k` fits the text... */
  lemma TwoBytesFit(s: string, k: nat)
    requires k < |s|
    ensures ByteLen(s[..k]) + 2 > ByteLen(s) <==> Utf8Len(s[k]) == 1 && k + 1 == |s|
  {
    NextByte(s, k);
    if k + 1 < |s| {
      NextByte(s, k + 1);
      PrefixAtMost(s, k + 2);
    } else {
      assert s[..k + 1] == s;
    }
  }

  /** ... and where it ends. */
  lemma TwoBytesEnd(s: string, k: nat)
    requires k < |s| && !(Utf8Len(s[k]) == 1 && k + 1 == |s|)
    ensures CharIndex(s, ByteLen(s[..k]) + 2)
         == if Splits(s, k) then None else Some(if Utf8Len(s[k]) == 2 then k + 1 else k + 2)
  {
    var end := ByteLen(s[..k]) + 2;
    NextByte(s, k);
    if Utf8Len(s[k]) == 2 {
      BoundaryAt(s, end, k + 1);
    } else if Utf8Len(s[k]) > 2 {
      NoBoundaryBetween(s, end, k);
    } else {
      NextByte(s, k + 1);
      if Utf8Len(s[k + 1]) == 1 {
        BoundaryAt(s, end, k + 2);
      } else {
        NoBoundaryBetween(s, end, k + 1);
      }
    }
  }

  lemma OperatorIsAscii(s: string, k: nat)
    requires k < |s| && OperatorAt(s, k)
    ensures Utf8Len(s[k]) == 1
  {
    assert s[k..k + 2][0] == s[k];
  }

  lemma PrefixAtMost(s: string, k: nat)
    requires k <= |s|
    ensures ByteLen(s[..k]) <= ByteLen(s)
  {
    assert s[..|s|] == s;
    if k < |s| { PrefixBytes(s, k, |s|); }
  }

  // ------------------------------------------------------------------
  // The operator search
  // ------------------------------------------------------------------

  /** The first character that splits or starts an operator decides. */
  function SearchFrom(s: string, k: nat): Search
    requires k <= |s|
    decreases |s| - k
  {
    if k == |s| then NotFound
    else if Splits(s, k) then SlicePanic
    else if OperatorAt(s, k) then Found(ByteLen(s[..k]))
    else SearchFrom(s, k + 1)
  }

  /** The loop over character offsets, slicing bytes. */
  method FindVersionOperator(s: string) returns (r: Search)
    ensures r == SearchFrom(s, 0)
  {
    var i := 0;
    for k := 0 to |s|
      invariant i == ByteLen(s[..k])
      invariant SearchFrom(s, 0) == SearchFrom(s, k)
    {
      TwoBytesFit(s, k);
      NextByte(s, k);
      if i + 2 <= ByteLen(s) {
        TwoBytesEnd(s, k);
        var end := CharIndex(s, i + 2);
        if end.None? { return SlicePanic; }
        var op := s[k..end.value];
        if op == ">=" || op == "<=" || op == "~=" || op == "!=" { return Found(i); }
      }
      SearchSkips(s, k);
      i := i + Utf8Len(s[k]);
    }
    return NotFound;
  }

  lemma SearchSkips(s: string, k: nat)
    requires k < |s| && !Splits(s, k) && (Utf8Len(s[k]) == 1 ==> !OperatorAt(s, k))
    ensures SearchFrom(s, k) == SearchFrom(s, k + 1)
  {
    if OperatorAt(s, k) {
      OperatorIsAscii(s, k);
    }
  }

  /** The search panics iff a character splits a slice before any operator starts. */
  lemma {:induction false} SearchPanicsIff(s: string, k: nat)
    requires k <= |s|
    ensures SearchFrom(s, k).SlicePanic? <==>
              exists j :: k <= j < |s| && Splits(s, j) && forall l :: k <= l < j ==> !OperatorAt(s, l)
    decreases |s| - k
  {
    if k < |s| && !Splits(s, k) {
      if OperatorAt(s, k) {
      } else {
        SearchPanicsIff(s, k + 1);
      }
    }
  }

  predicate IsAscii(s: string) {
    forall i :: 0 <= i < |s| ==> Utf8Len(s[i]) == 1
  }

  /** On ASCII text the search never panics and finds the first operator. */
  lemma {:induction false} AsciiSearch(s: string, k: nat)
    requires IsAscii(s) && k <= |s|
    ensures match SearchFrom(s, k)
            case SlicePanic => false
            case NotFound => forall j :: k <= j < |s| ==> !OperatorAt(s, j)
            case Found(offset) => k <= offset < |s| && OperatorAt(s, offset)
                                  && forall j :: k <= j < offset ==> !OperatorAt(s, j)
    decreases |s| - k
  {
    if k < |s| {
      AsciiBytes(s, k);
      if !OperatorAt(s, k) {
        AsciiSearch(s, k + 1);
      }
    }
  }

  lemma {:induction false} AsciiBytes(s: string, k: nat)
    requires IsAscii(s) && k <= |s|
    ensures ByteLen(s[..k]) == k
  {
    if k > 0 {
      assert s[..k][..k - 1] == s[..k - 1];
      AsciiBytes(s, k - 1);
    }
  }

  // ------------------------------------------------------------------
  // Lines
  // ------------------------------------------------------------------

  /** The first place where two characters are `==`, or the length. */
  function FirstPin(s: string, from: nat): (k: nat)
    requires from <= |s|
    ensures from <= k <= |s|
    ensures k < |s| ==> k + 2 <= |s| && s[k] == '=' && s[k + 1] == '='
    decreases |s| - from
  {
    if from == |s| then from
    else if from + 2 <= |s| && s[from] == '=' && s[from + 1] == '=' then from
    else FirstPin(s, from + 1)
  }

  datatype LineResult = Skip | Dep(requirement: Requirement) | Panic

  function Named(name: string, version: string, wanted: bool): LineResult {
    if name != "" && wanted then Dep(Requirement(name, version)) else Skip
  }

  function ReadLine(line: string): LineResult {
    var s := Trim(line);
    if s == "" || s[0] == '#' || s[0] == '-' then Skip
    else
      var pin := FirstPin(s, 0);
      if pin < |s| then Named(Trim(s[..pin]), Trim(s[pin + 2..]), Trim(s[pin + 2..]) != "")
      else
        match SearchFrom(s, 0)
        case SlicePanic => Panic
        case NotFound => Dep(Requirement(s, ""))
        case Found(offset) =>
          FoundIsBoundary(s, 0);
          CharIndexSound(s, offset);
          Named(Trim(s[..CharIndex(s, offset).value]), "", true)
  }

  /** `None` once some line panics. */
  function ReadLines(lines: seq<string>): Option<seq<Requirement>> {
    if lines == [] then Some([])
    else
      var before := ReadLines(lines[..|lines| - 1]);
      if before.None? then None
      else
        match ReadLine(lines[|lines| - 1])
        case Panic => None
        case Skip => before
        case Dep(r) => Some(before.value + [r])
  }

  method ParseRequirements(content: string) returns (deps: Option<seq<Requirement>>)
    ensures deps == ReadLines(Lines(content))
  {
    var lines := Lines(content);
    var found := [];
    for i := 0 to |lines|
      invariant ReadLines(lines[..i]) == Some(found)
    {
      ReadLinesStep(lines, i);
      var r := ReadLine(lines[i]);
      match r {
        case Panic => ReadLinesStays(lines, i + 1); return None;
        case Skip =>
        case Dep(d) => found := found + [d];
      }
    }
    assert lines[..|lines|] == lines;
    return Some(found);
  }

  lemma ReadLinesStep(lines: seq<string>, i: nat)
    requires i < |lines| && ReadLines(lines[..i]).Some?
    ensures ReadLines(lines[..i + 1]) ==
              match ReadLine(lines[i])
              case Panic => None
              case Skip => ReadLines(lines[..i])
              case Dep(r) => Some(ReadLines(lines[..i]).value + [r])
  {
    assert lines[..i + 1][..i] == lines[..i];
  }

  lemma {:induction false} ReadLinesStays(lines: seq<string>, i: nat)
    requires i <= |lines| && ReadLines(lines[..i]).None?
    ensures ReadLines(lines).None?
    decreases |lines| - i
  {
    if i < |lines| {
      assert lines[..i + 1][..i] == lines[..i];
      ReadLinesStays(lines, i + 1);
    } else {
      assert lines[..i] == lines;
    }
  }

  /** A line that is looked at for operators: not empty, a comment or a flag, and
      without a pin. */
  predicate Searched(s: string) {
    s != "" && s[0] != '#' && s[0] != '-' && FirstPin(s, 0) == |s|
  }

  lemma FoundIsBoundary(s: string, k: nat)
    requires k <= |s| && SearchFrom(s, k).Found?
    ensures CharIndex(s, SearchFrom(s, k).offset).Some?
    decreases |s| - k
  {
    if !Splits(s, k) && OperatorAt(s, k) {
      CharIndexInverts(s, k);
    } else if !Splits(s, k) {
      FoundIsBoundary(s, k + 1);
    }
  }

  /** A line panics iff it is searched and some character splits a two-byte slice
      before any operator: one of three or four bytes, or one of several bytes after
      a single-byte one. */
  lemma LinePanicsIff(line: string)
    ensures var s := Trim(line);
            ReadLine(line).Panic? <==>
              Searched(s) && exists j :: 0 <= j < |s| && Splits(s, j) && forall l :: 0 <= l < j ==> !OperatorAt(s, l)
  {
    var s := Trim(line);
    SearchPanicsIff(s, 0);
  }

  /** A bare name of one single-byte and one two-byte character. */
  lemma NonAsciiNamePanics()
    ensures ReadLine("n\U{00E9}").Panic?
  {
    var s := "n\U{00E9}";
    TrimKeeps(s);
    assert FirstPin(s, 1) == 2;
    SearchPanicsIff(s, 0);
  }

  predicate Trimmed(s: string) {
    s != "" && !IsWhitespace(s[0]) && !IsWhitespace(s[|s| - 1])
  }

  lemma {:induction false} FirstPinAt(s: string, from: nat, k: nat)
    requires from <= k && k + 2 <= |s| && s[k] == '=' && s[k + 1] == '='
    requires forall j :: from <= j < k ==> s[j] != '='
    ensures FirstPin(s, from) == k
    decreases k - from
  {
    if from < k {
      FirstPinAt(s, from + 1, k);
    }
  }

  lemma PinShape(name: string, version: string)
    requires Trimmed(name) && Trimmed(version) && '=' !in name
    ensures var s := name + "==" + version;
            && Trim(s) == s && s[0] == name[0] && FirstPin(s, 0) == |name|
            && s[..|name|] == name && s[|name| + 2..] == version
  {
    var s := name + "==" + version;
    assert s[0] == name[0] && s[|s| - 1] == version[|version| - 1];
    assert forall j :: 0 <= j < |name| ==> s[j] == name[j];
    TrimKeeps(s);
    FirstPinAt(s, 0, |name|);
  }

  /** A pinned line reads back as exactly its name and version. */
  lemma PinnedLineReads(name: string, version: string)
    requires Trimmed(name) && Trimmed(version) && '=' !in name && name[0] != '#' && name[0] != '-'
    ensures ReadLine(name + "==" + version) == Dep(Requirement(name, version))
  {
    PinShape(name, version);
    TrimKeeps(name);
    TrimKeeps(version);
  }

  /** The reader panics iff one of the lines does. */
  lemma {:induction false} ReaderPanicsIff(lines: seq<string>)
    ensures ReadLines(lines).None? <==> exists i :: 0 <= i < |lines| && ReadLine(lines[i]).Panic?
  {
    if lines != [] {
      var init := lines[..|lines| - 1];
      ReaderPanicsIff(init);
      assert forall i :: 0 <= i < |init| ==> init[i] == lines[i];
    }
  }
}
