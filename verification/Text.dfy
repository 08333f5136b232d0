/** Searching and cutting sequences: the string primitives the parsers rely on. */
module Text {
  import opened Bytes
  import opened Verdicts

  /** The position of the first `c`, or the length. */
  function IndexOf<T(==)>(s: seq<T>, c: T): (i: nat)
    ensures i <= |s|
    ensures forall j :: 0 <= j < i ==> s[j] != c
    ensures i < |s| ==> s[i] == c
  {
    IndexFrom(s, c, 0)
  }

  function IndexFrom<T(==)>(s: seq<T>, c: T, from: nat): (i: nat)
    requires from <= |s|
    ensures from <= i <= |s|
    ensures forall j :: from <= j < i ==> s[j] != c
    ensures i < |s| ==> s[i] == c
    decreases |s| - from
  {
    if from == |s| || s[from] == c then from else IndexFrom(s, c, from + 1)
  }

  /** The position just after the last `c`, or zero. */
  function AfterLast<T(==)>(s: seq<T>, c: T): (i: nat)
    ensures i <= |s|
    ensures forall j :: i <= j < |s| ==> s[j] != c
    ensures i > 0 ==> s[i - 1] == c
  {
    if s == [] || s[|s| - 1] == c then |s| else AfterLast(s[..|s| - 1], c)
  }

  lemma {:induction false} IndexOfSeparator<T>(a: seq<T>, c: T, b: seq<T>)
    requires c !in a
    ensures IndexOf(a + [c] + b, c) == |a|
  {
    var s := a + [c] + b;
    assert s[|a|] == c;
    assert forall k :: 0 <= k < |a| ==> s[k] == a[k];
  }

  lemma {:induction false} AfterLastSeparator<T>(a: seq<T>, c: T, b: seq<T>)
    requires c !in b
    ensures AfterLast(a + [c] + b, c) == |a| + 1
  {
    var s := a + [c] + b;
    var i := AfterLast(s, c);
    assert s[|a|] == c;
    assert forall k :: |a| < k < |s| ==> s[k] == b[k - |a| - 1];
  }

  /** A separator that does not occur on the left splits in only one way. */
  lemma SplitAtFirst<T>(a: seq<T>, b: seq<T>, a': seq<T>, b': seq<T>, c: T)
    requires a + [c] + b == a' + [c] + b' && c !in a && c !in a'
    ensures a == a' && b == b'
  {
    IndexOfSeparator(a, c, b);
    IndexOfSeparator(a', c, b');
    SplitAtSamePlace(a, b, a', b', c);
  }

  /** Nor does one that does not occur on the right. */
  lemma SplitAtLast<T>(a: seq<T>, b: seq<T>, a': seq<T>, b': seq<T>, c: T)
    requires a + [c] + b == a' + [c] + b' && c !in b && c !in b'
    ensures a == a' && b == b'
  {
    AfterLastSeparator(a, c, b);
    AfterLastSeparator(a', c, b');
    SplitAtSamePlace(a, b, a', b', c);
  }

  lemma SplitAtSamePlace<T>(a: seq<T>, b: seq<T>, a': seq<T>, b': seq<T>, c: T)
    requires a + [c] + b == a' + [c] + b' && |a| == |a'|
    ensures a == a' && b == b'
  {
    var s, s' := a + [c] + b, a' + [c] + b';
    assert a == s[..|a|] && a' == s'[..|a|];
    assert b == s[|a| + 1..] && b' == s'[|a| + 1..];
  }

  /** The values that are there, in order. */
  function Somes<T>(list: seq<Option<T>>): seq<T> {
    if list == [] then []
    else if list[|list| - 1].None? then Somes(list[..|list| - 1])
    else Somes(list[..|list| - 1]) + [list[|list| - 1].value]
  }

  lemma SomesStep<T>(list: seq<Option<T>>, i: nat)
    requires i < |list|
    ensures Somes(list[..i + 1]) == if list[i].Some? then Somes(list[..i]) + [list[i].value] else Somes(list[..i])
  {
    assert list[..i + 1][..i] == list[..i];
  }

  /** Each value comes from a place... */
  lemma {:induction false} SomesSource<T>(list: seq<Option<T>>, x: T) returns (i: nat)
    requires x in Somes(list)
    ensures i < |list| && list[i] == Some(x)
  {
    i := |list| - 1;
    if list[i] != Some(x) {
      i := SomesSource(list[..i], x);
    }
  }

  /** ... and each place with a value gives it. */
  lemma {:induction false} SomesKeeps<T>(list: seq<Option<T>>, i: nat)
    requires i < |list| && list[i].Some?
    ensures list[i].value in Somes(list)
    decreases |list|
  {
    if i < |list| - 1 {
      SomesKeeps(list[..|list| - 1], i);
    }
  }

  // ------------------------------------------------------------------
  // Byte offsets
  // ------------------------------------------------------------------

  function Utf8Len(c: char): (n: nat)
    ensures 1 <= n <= 4
  {
    if c as int < 0x80 then 1 else if c as int < 0x800 then 2 else if c as int < 0x1_0000 then 3 else 4
  }

  function Utf8(c: char): (b: seq<Byte>)
    ensures |b| == Utf8Len(c)
  {
    var n := c as int;
    if n < 0x80 then [n]
    else if n < 0x800 then [0xC0 + n / 64, 0x80 + n % 64]
    else if n < 0x1_0000 then [0xE0 + n / 4096, 0x80 + n / 64 % 64, 0x80 + n % 64]
    else [0xF0 + n / 262144, 0x80 + n / 4096 % 64, 0x80 + n / 64 % 64, 0x80 + n % 64]
  }

  function Utf8Bytes(s: string): seq<Byte> {
    if s == "" then [] else Utf8(s[0]) + Utf8Bytes(s[1..])
  }

  /** Each character can be told from the first bytes of the rest of the text. */
  lemma Utf8PrefixFree(c: char, d: char, r: seq<Byte>, t: seq<Byte>)
    requires Utf8(c) + r == Utf8(d) + t
    ensures c == d && r == t
  {
    var (u, v) := (Utf8(c) + r, Utf8(d) + t);
    assert u[0] == Utf8(c)[0] && v[0] == Utf8(d)[0];
    assert Utf8Len(c) == Utf8Len(d);
    assert Utf8(c) == u[..Utf8Len(c)] && Utf8(d) == v[..Utf8Len(c)];
    assert r == u[Utf8Len(c)..] && t == v[Utf8Len(c)..];
    Utf8CharInjective(c, d);
  }

  /** The code point encoded by one character's bytes. */
  function Utf8Value(b: seq<Byte>): int
    requires 1 <= |b| <= 4
  {
    if |b| == 1 then b[0]
    else if |b| == 2 then (b[0] as int - 0xC0) * 64 + (b[1] as int - 0x80)
    else if |b| == 3 then (b[0] as int - 0xE0) * 4096 + (b[1] as int - 0x80) * 64 + (b[2] as int - 0x80)
    else (b[0] as int - 0xF0) * 262144 + (b[1] as int - 0x80) * 4096 + (b[2] as int - 0x80) * 64 + (b[3] as int - 0x80)
  }

  lemma Base64Digits(n: nat)
    ensures n == n / 64 * 64 + n % 64
    ensures n == n / 4096 * 4096 + n / 64 % 64 * 64 + n % 64
    ensures n == n / 262144 * 262144 + n / 4096 % 64 * 4096 + n / 64 % 64 * 64 + n % 64
  {
    assert n / 64 / 64 == n / 4096 && n / 4096 / 64 == n / 262144;
  }

  lemma Utf8CharInjective(c: char, d: char)
    requires Utf8(c) == Utf8(d)
    ensures c == d
  {
    Utf8Decodes(c);
    Utf8Decodes(d);
  }

  lemma Utf8Decodes(c: char)
    ensures Utf8Value(Utf8(c)) == c as int
  {
    Base64Digits(c as int);
  }

  lemma {:induction false} Utf8Injective(s: string, t: string)
    requires Utf8Bytes(s) == Utf8Bytes(t)
    ensures s == t
  {
    if s != "" && t != "" {
      Utf8PrefixFree(s[0], t[0], Utf8Bytes(s[1..]), Utf8Bytes(t[1..]));
      Utf8Injective(s[1..], t[1..]);
      assert s == [s[0]] + s[1..] && t == [t[0]] + t[1..];
    }
  }

  /** The length of a string in UTF-8 bytes. */
  function ByteLen(s: string): nat {
    if s == "" then 0 else ByteLen(s[..|s| - 1]) + Utf8Len(s[|s| - 1])
  }

  lemma {:induction false} ByteLenIsUtf8(s: string)
    ensures ByteLen(s) == |Utf8Bytes(s)|
  {
    if s != "" {
      ByteLenIsUtf8(s[1..]);
      ByteLenAppend([s[0]], s[1..]);
      assert [s[0]] + s[1..] == s && [s[0]][..0] == "";
    }
  }

  lemma {:induction false} Utf8Append(s: string, t: string)
    ensures Utf8Bytes(s + t) == Utf8Bytes(s) + Utf8Bytes(t)
  {
    if s == "" {
      assert s + t == t;
    } else {
      assert (s + t)[1..] == s[1..] + t;
      Utf8Append(s[1..], t);
      assert Utf8(s[0]) + (Utf8Bytes(s[1..]) + Utf8Bytes(t)) == (Utf8(s[0]) + Utf8Bytes(s[1..])) + Utf8Bytes(t);
    }
  }

  /** Cutting a string's UTF-8 bytes at the byte offset of a character cuts the string there. */
  lemma CutAtOffset(s: string, i: nat)
    requires i <= |s|
    ensures ByteLen(s[..i]) <= |Utf8Bytes(s)|
    ensures Utf8Bytes(s)[..ByteLen(s[..i])] == Utf8Bytes(s[..i]) && Utf8Bytes(s)[ByteLen(s[..i])..] == Utf8Bytes(s[i..])
  {
    ByteLenIsUtf8(s[..i]);
    Utf8Append(s[..i], s[i..]);
    assert s[..i] + s[i..] == s;
  }

  /** The character at a byte offset; `None` off a character boundary, where
      slicing would panic. */
  function CharIndex(s: string, offset: nat): Option<nat> {
    if ByteLen(s) == offset then Some(|s|)
    else if s == "" then None
    else CharIndex(s[..|s| - 1], offset)
  }

  lemma {:induction false} ByteLenAppend(s: string, t: string)
    ensures ByteLen(s + t) == ByteLen(s) + ByteLen(t)
  {
    if t == "" {
      assert s + t == s;
    } else {
      var last := |t| - 1;
      assert (s + t)[..|s + t| - 1] == s + t[..last];
      ByteLenAppend(s, t[..last]);
    }
  }

  lemma {:induction false} ByteLenGrows(s: string, i: nat)
    requires i < |s|
    ensures ByteLen(s[..i]) < ByteLen(s)
    decreases |s|
  {
    if i < |s| - 1 {
      assert s[..|s| - 1][..i] == s[..i];
      ByteLenGrows(s[..|s| - 1], i);
    }
  }

  lemma {:induction false} CharIndexInverts(s: string, i: nat)
    requires i <= |s|
    ensures CharIndex(s, ByteLen(s[..i])) == Some(i)
    decreases |s|
  {
    if i == |s| {
      assert s[..i] == s;
    } else {
      ByteLenGrows(s, i);
      assert s[..|s| - 1][..i] == s[..i];
      CharIndexInverts(s[..|s| - 1], i);
    }
  }

  // ------------------------------------------------------------------
  // Whitespace, lines and fields
  // ------------------------------------------------------------------

  /** Unicode White_Space. */
  predicate IsWhitespace(c: char) {
    var n := c as int;
    9 <= n <= 13 || n == 0x20 || n == 0x85 || n == 0xA0 || n == 0x1680 || 0x2000 <= n <= 0x200A
    || n == 0x2028 || n == 0x2029 || n == 0x202F || n == 0x205F || n == 0x3000
  }

  function TrimStart(s: string): string {
    if s == "" || !IsWhitespace(s[0]) then s else TrimStart(s[1..])
  }

  function TrimEnd(s: string): string {
    if s == "" || !IsWhitespace(s[|s| - 1]) then s else TrimEnd(s[..|s| - 1])
  }

  function Trim(s: string): string {
    TrimEnd(TrimStart(s))
  }

  lemma {:induction false} TrimStartIsSuffix(s: string) returns (i: nat)
    ensures i <= |s| && TrimStart(s) == s[i..]
    ensures TrimStart(s) == "" || !IsWhitespace(TrimStart(s)[0])
  {
    if s == "" || !IsWhitespace(s[0]) {
      i := 0;
    } else {
      i := TrimStartIsSuffix(s[1..]);
      i := i + 1;
    }
  }

  lemma {:induction false} TrimEndIsPrefix(s: string) returns (i: nat)
    ensures i <= |s| && TrimEnd(s) == s[..i]
    ensures TrimEnd(s) == "" || !IsWhitespace(TrimEnd(s)[i - 1])
  {
    if s == "" || !IsWhitespace(s[|s| - 1]) {
      i := |s|;
    } else {
      i := TrimEndIsPrefix(s[..|s| - 1]);
    }
  }

  /** Trimming returns a piece of the string with no whitespace at either end. */
  lemma TrimIsInside(s: string) returns (i: nat, j: nat)
    ensures i <= j <= |s| && Trim(s) == s[i..j]
    ensures i < j ==> !IsWhitespace(s[i]) && !IsWhitespace(s[j - 1])
  {
    i := TrimStartIsSuffix(s);
    var n := TrimEndIsPrefix(s[i..]);
    j := i + n;
  }

  lemma TrimKeeps(s: string)
    requires s != "" && !IsWhitespace(s[0]) && !IsWhitespace(s[|s| - 1])
    ensures Trim(s) == s
  {
  }

  function TrimEndNewlines(s: string): (t: string)
    ensures t <= s
  {
    if s == "" || s[|s| - 1] != '\n' then s else TrimEndNewlines(s[..|s| - 1])
  }

  /** The pieces between separators; always at least one. */
  function SplitBy<T(==)>(s: seq<T>, c: T): seq<seq<T>> {
    SplitFrom(s, c, 0)
  }

  function SplitFrom<T(==)>(s: seq<T>, c: T, from: nat): (pieces: seq<seq<T>>)
    requires from <= |s|
    ensures pieces != []
    decreases |s| - from
  {
    var i := IndexFrom(s, c, from);
    if i == |s| then [s[from..i]] else [s[from..i]] + SplitFrom(s, c, i + 1)
  }

  lemma {:induction false} SplitPieces<T>(s: seq<T>, c: T, from: nat)
    requires from <= |s|
    ensures forall i :: 0 <= i < |SplitFrom(s, c, from)| ==> c !in SplitFrom(s, c, from)[i]
    decreases |s| - from
  {
    var i := IndexFrom(s, c, from);
    if i < |s| {
      SplitPieces(s, c, i + 1);
    }
  }

  /** The pieces put back together. */
  function JoinBy<T>(pieces: seq<seq<T>>, c: T): seq<T>
    requires pieces != []
  {
    if |pieces| == 1 then pieces[0] else pieces[0] + [c] + JoinBy(pieces[1..], c)
  }

  lemma IndexFromIs<T>(s: seq<T>, c: T, from: nat, i: nat)
    requires from <= i <= |s| && (forall j :: from <= j < i ==> s[j] != c) && (i < |s| ==> s[i] == c)
    ensures IndexFrom(s, c, from) == i
  {
    var k := IndexFrom(s, c, from);
    assert k <= i;
  }

  lemma PieceAt<T>(before: seq<T>, piece: seq<T>, rest: seq<T>)
    ensures var (s, i) := (before + (piece + rest), |before| + |piece|);
            s[|before|..i] == piece && (rest != [] ==> s[i] == rest[0])
  {
  }

  /** A separator-free piece after `before`, up to a separator or the end. */
  lemma PieceEnds<T>(before: seq<T>, piece: seq<T>, rest: seq<T>, c: T)
    requires c !in piece && (rest == [] || rest[0] == c)
    ensures var s := before + (piece + rest);
            IndexFrom(s, c, |before|) == |before| + |piece| && s[|before|..|before| + |piece|] == piece
  {
    var (s, i) := (before + (piece + rest), |before| + |piece|);
    PieceAt(before, piece, rest);
    assert forall j :: |before| <= j < i ==> s[j] == s[|before|..i][j - |before|];
    IndexFromIs(s, c, |before|, i);
  }

  /** Splitting takes one piece off the front... */
  lemma SplitPiece<T>(before: seq<T>, piece: seq<T>, c: T, rest: seq<T>)
    requires c !in piece
    ensures SplitFrom(before + (piece + ([c] + rest)), c, |before|)
         == [piece] + SplitFrom(before + piece + [c] + rest, c, |before + piece + [c]|)
  {
    PieceEnds(before, piece, [c] + rest, c);
    Regrouped(before, piece, c, rest);
  }

  lemma Regrouped<T>(before: seq<T>, piece: seq<T>, c: T, rest: seq<T>)
    ensures before + (piece + ([c] + rest)) == before + piece + [c] + rest
  {
  }

  /** ... and leaves a separator-free rest whole. */
  lemma SplitLast<T>(before: seq<T>, piece: seq<T>, c: T)
    requires c !in piece
    ensures SplitFrom(before + piece, c, |before|) == [piece]
  {
    assert piece + [] == piece;
    PieceEnds(before, piece, [], c);
  }

  lemma JoinFront<T>(pieces: seq<seq<T>>, c: T)
    requires |pieces| > 1
    ensures JoinBy(pieces, c) == pieces[0] + ([c] + JoinBy(pieces[1..], c))
  {
  }

  lemma {:induction false} SplitJoin<T>(before: seq<T>, pieces: seq<seq<T>>, c: T)
    requires pieces != [] && forall i :: 0 <= i < |pieces| ==> c !in pieces[i]
    ensures SplitFrom(before + JoinBy(pieces, c), c, |before|) == pieces
    decreases |pieces|
  {
    if |pieces| > 1 {
      JoinFront(pieces, c);
      SplitPiece(before, pieces[0], c, JoinBy(pieces[1..], c));
      SplitJoin(before + pieces[0] + [c], pieces[1..], c);
    } else {
      SplitLast(before, pieces[0], c);
    }
  }

  function StripCr(s: string): string {
    if s != "" && s[|s| - 1] == '\r' then s[..|s| - 1] else s
  }

  /** Lines without their terminators; a final newline adds no empty line. */
  function Lines(s: string): seq<string> {
    var pieces := SplitBy(s, '\n');
    var kept := if pieces[|pieces| - 1] == "" then pieces[..|pieces| - 1] else pieces;
    seq(|kept|, i requires 0 <= i < |kept| => StripCr(kept[i]))
  }

  lemma LinesHaveNoNewline(s: string)
    ensures forall i :: 0 <= i < |Lines(s)| ==> '\n' !in Lines(s)[i]
  {
    SplitPieces(s, '\n', 0);
    var pieces := SplitBy(s, '\n');
    forall i | 0 <= i < |Lines(s)| ensures '\n' !in Lines(s)[i] {
      assert '\n' !in pieces[i] && Lines(s)[i] == StripCr(pieces[i]);
    }
  }

  /** Lines that neither end in a carriage return nor, for the last one, are empty
      survive joining and splitting. */
  lemma LinesOfJoined(lines: seq<string>)
    requires lines != [] && lines[|lines| - 1] != ""
    requires forall i :: 0 <= i < |lines| ==> '\n' !in lines[i] && StripCr(lines[i]) == lines[i]
    ensures Lines(JoinBy(lines, '\n')) == lines
  {
    SplitJoin([], lines, '\n');
    assert [] + JoinBy(lines, '\n') == JoinBy(lines, '\n');
  }
}
