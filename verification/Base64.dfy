/** Standard base64 (section 4 of RFC 4648), decoded strictly: padding is required
    and unused bits must be zero. */
module Base64 {
  import opened Bytes
  import opened Verdicts

  type Sextet = x: int | 0 <= x < 64

  function SextetChar(d: Sextet): char {
    if d < 26 then (d + 65) as char
    else if d < 52 then (d + 71) as char
    else if d < 62 then (d - 4) as char
    else if d == 62 then '+' else '/'
  }

  function CharSextet(c: char): Option<Sextet> {
    if 'A' <= c <= 'Z' then Some(c as int - 65)
    else if 'a' <= c <= 'z' then Some(c as int - 71)
    else if '0' <= c <= '9' then Some(c as int + 4)
    else if c == '+' then Some(62)
    else if c == '/' then Some(63)
    else None
  }

  lemma SextetInverse(d: Sextet, c: char)
    ensures CharSextet(c) == Some(d) <==> c == SextetChar(d)
    ensures SextetChar(d) != '='
  {
  }

  /** The characters of `b`, which may not be padded. */
  function EncodeBlock(x: Byte, y: Byte, z: Byte): string {
    [SextetChar(x / 4), SextetChar(x % 4 * 16 + y / 16), SextetChar(y % 16 * 4 + z / 64), SextetChar(z % 64)]
  }

  function Encode(b: seq<Byte>): string
    decreases |b|, 1
  {
    if |b| == 0 then ""
    else if |b| == 1 then EncodeBlock(b[0], 0, 0)[..2] + "=="
    else if |b| == 2 then EncodeBlock(b[0], b[1], 0)[..3] + "="
    else EncodeLong(b)
  }

  function EncodeLong(b: seq<Byte>): string
    requires |b| >= 3
    decreases |b|, 0
  {
    EncodeBlock(b[0], b[1], b[2]) + Encode(b[3..])
  }

  lemma EncodeUnfolds(b: seq<Byte>)
    requires |b| >= 3
    ensures Encode(b) == EncodeBlock(b[0], b[1], b[2]) + Encode(b[3..])
  {
  }

  function Join(d0: Sextet, d1: Sextet, d2: Sextet, d3: Sextet): (b: seq<Byte>)
    ensures |b| == 3
  {
    [d0 * 4 + d1 / 16, d1 % 16 * 16 + d2 / 4, d2 % 4 * 64 + d3]
  }

  /** One four-character block; only the last one may be padded. */
  function DecodeBlock(s: string, last: bool): Option<seq<Byte>>
    requires |s| == 4
  {
    match (CharSextet(s[0]), CharSextet(s[1]), CharSextet(s[2]), CharSextet(s[3]))
    case (Some(d0), Some(d1), Some(d2), Some(d3)) => Some(Join(d0, d1, d2, d3))
    case (Some(d0), Some(d1), Some(d2), None) =>
      if last && s[3] == '=' && d2 % 4 == 0 then Some(Join(d0, d1, d2, 0)[..2]) else None
    case (Some(d0), Some(d1), None, None) =>
      if last && s[2] == '=' && s[3] == '=' && d1 % 16 == 0 then Some(Join(d0, d1, 0, 0)[..1]) else None
    case _ => None
  }

  function Decode(s: string): Option<seq<Byte>> {
    if s == "" then Some([])
    else if |s| < 4 then None
    else
      match DecodeBlock(s[..4], |s| == 4)
      case None => None
      case Some(head) =>
        match Decode(s[4..])
        case None => None
        case Some(rest) => Some(head + rest)
  }

  lemma BlockArithmetic(x: Byte, y: Byte, z: Byte)
    ensures Join(x / 4, x % 4 * 16 + y / 16, y % 16 * 4 + z / 64, z % 64) == [x, y, z]
  {
  }

  lemma SextetsInvert(x: Byte, y: Byte, z: Byte)
    ensures var s := EncodeBlock(x, y, z);
            && CharSextet(s[0]) == Some(x / 4) && CharSextet(s[1]) == Some(x % 4 * 16 + y / 16)
            && CharSextet(s[2]) == Some(y % 16 * 4 + z / 64) && CharSextet(s[3]) == Some(z % 64)
  {
    SextetInverse(x / 4, SextetChar(x / 4));
    SextetInverse(x % 4 * 16 + y / 16, SextetChar(x % 4 * 16 + y / 16));
    SextetInverse(y % 16 * 4 + z / 64, SextetChar(y % 16 * 4 + z / 64));
    SextetInverse(z % 64, SextetChar(z % 64));
  }

  /** Full, two-byte and one-byte blocks decode to what was encoded. */
  lemma BlockInverts(x: Byte, y: Byte, z: Byte, last: bool)
    ensures DecodeBlock(EncodeBlock(x, y, z), last) == Some([x, y, z])
    ensures DecodeBlock(EncodeBlock(x, y, 0)[..3] + "=", true) == Some([x, y])
    ensures DecodeBlock(EncodeBlock(x, 0, 0)[..2] + "==", true) == Some([x])
  {
    SextetsInvert(x, y, z);
    SextetsInvert(x, y, 0);
    SextetsInvert(x, 0, 0);
    BlockArithmetic(x, y, z);
    BlockArithmetic(x, y, 0);
    BlockArithmetic(x, 0, 0);
    assert [x, y, 0][..2] == [x, y] && [x, 0, 0][..1] == [x];
  }

  lemma DecodeEncodeOne(b: seq<Byte>)
    requires |b| == 1
    ensures |Encode(b)| == 4 && DecodeBlock(Encode(b), true) == Some(b)
  {
    BlockInverts(b[0], 0, 0, true);
    assert Encode(b) == EncodeBlock(b[0], 0, 0)[..2] + "==" && b == [b[0]];
  }

  lemma DecodeEncodeTwo(b: seq<Byte>)
    requires |b| == 2
    ensures |Encode(b)| == 4 && DecodeBlock(Encode(b), true) == Some(b)
  {
    BlockInverts(b[0], b[1], 0, true);
    assert Encode(b) == EncodeBlock(b[0], b[1], 0)[..3] + "=" && b == [b[0], b[1]];
  }

  lemma DecodeEncodeThree(b: seq<Byte>, last: bool)
    requires |b| == 3
    ensures |Encode(b)| == 4 && DecodeBlock(Encode(b), last) == Some(b)
  {
    BlockInverts(b[0], b[1], b[2], last);
    assert b[3..] == [] && Encode([]) == "";
    assert Encode(b) == EncodeBlock(b[0], b[1], b[2]) && b == [b[0], b[1], b[2]];
  }

  lemma DecodeEncodeBlock(b: seq<Byte>, last: bool)
    requires 0 < |b| <= 3 && (|b| < 3 ==> last)
    ensures |Encode(b)| == 4 && DecodeBlock(Encode(b), last) == Some(b)
  {
    if |b| == 1 {
      DecodeEncodeOne(b);
    } else if |b| == 2 {
      DecodeEncodeTwo(b);
    } else {
      DecodeEncodeThree(b, last);
    }
  }

  lemma {:induction false} DecodeEncode(b: seq<Byte>)
    ensures Decode(Encode(b)) == Some(b)
  {
    var s := Encode(b);
    if |b| > 3 {
      DecodeEncodeBlock(b[..3], false);
      EncodeAppend(b[..3], b[3..]);
      assert b == b[..3] + b[3..];
      DecodeEncode(b[3..]);
      assert s[..4] == Encode(b[..3]) && s[4..] == Encode(b[3..]);
      assert |s| > 4;
    } else if |b| > 0 {
      DecodeEncodeBlock(b, true);
      assert s[..4] == s && s[4..] == "" && Decode("") == Some([]);
      assert b + [] == b;
    }
  }

  lemma JoinArithmetic(d0: Sextet, d1: Sextet, d2: Sextet, d3: Sextet)
    ensures var b := Join(d0, d1, d2, d3);
            b[0] / 4 == d0 && b[0] % 4 * 16 + b[1] / 16 == d1 && b[1] % 16 * 4 + b[2] / 64 == d2 && b[2] % 64 == d3
  {
  }

  lemma DecodeBlockInverts(s: string, last: bool)
    requires |s| == 4 && DecodeBlock(s, last).Some?
    ensures var b := DecodeBlock(s, last).value;
            Encode(b) == s && b != [] && (|b| < 3 ==> last)
  {
    var d0, d1 := CharSextet(s[0]).value, CharSextet(s[1]).value;
    var d2 := if CharSextet(s[2]).Some? then CharSextet(s[2]).value else 0;
    var d3 := if CharSextet(s[3]).Some? then CharSextet(s[3]).value else 0;
    JoinArithmetic(d0, d1, d2, d3);
    SextetInverse(d0, s[0]);
    SextetInverse(d1, s[1]);
    SextetInverse(d2, s[2]);
    SextetInverse(d3, s[3]);
    var b := DecodeBlock(s, last).value;
    if |b| == 3 {
      EncodeUnfolds(b);
      assert b[3..] == [] && Encode([]) == "";
    }
  }

  lemma EncodeAppend(head: seq<Byte>, rest: seq<Byte>)
    requires |head| == 3
    ensures Encode(head + rest) == Encode(head) + Encode(rest)
  {
    EncodeUnfolds(head);
    EncodeUnfolds(head + rest);
    assert (head + rest)[3..] == rest && head[3..] == [] && Encode([]) == "";
  }

  lemma {:induction false} EncodeDecode(s: string)
    requires Decode(s).Some?
    ensures Encode(Decode(s).value) == s
  {
    if s != "" {
      DecodeBlockInverts(s[..4], |s| == 4);
      EncodeDecode(s[4..]);
      var head, rest := DecodeBlock(s[..4], |s| == 4).value, Decode(s[4..]).value;
      if |s| == 4 {
        assert head + rest == head && s[..4] == s;
      } else {
        DecodedBlockIsShort(s[..4], false);
        EncodeAppend(head, rest);
      }
    }
  }

  lemma DecodedBlockIsShort(s: string, last: bool)
    requires |s| == 4 && DecodeBlock(s, last).Some?
    ensures |DecodeBlock(s, last).value| <= 3
  {
  }

  /** Strict decoding is exactly the inverse of encoding: every byte string has one
      accepted spelling. */
  lemma DecodeIsInverse(s: string, b: seq<Byte>)
    ensures Decode(s) == Some(b) <==> s == Encode(b)
  {
    DecodeEncode(b);
    if Decode(s).Some? {
      EncodeDecode(s);
    }
  }
}
