/**
 The text between the display and the charge controller when they hang on different machines:
 display.c writes a request as hex digits, mtcpserver.c reads them, sends the request, prints the
 answer as <XX> groups, and display.c reads those back.
 */
module HexTunnel {
  import opened Bytes
  import opened Table

  const RECV_SIZE: nat := 1024

  // ----- a byte of the line, and a byte of a buffer -----

  function Widen(f: seq<bv8>): (s: seq<byte>)
    ensures |s| == |f| && forall i :: 0 <= i < |f| ==> s[i] == f[i] as int
  {
    seq(|f|, i requires 0 <= i < |f| => f[i] as int)
  }

  function Narrow(s: seq<byte>): (f: seq<bv8>)
    ensures |f| == |s| && forall i :: 0 <= i < |s| ==> f[i] == s[i] as bv8
  {
    seq(|s|, i requires 0 <= i < |s| => s[i] as bv8)
  }

  lemma NarrowByte(b: bv8)
    ensures (b as int) as bv8 == b
  {}

  lemma NarrowWiden(f: seq<bv8>)
    ensures Narrow(Widen(f)) == f
  {
    forall i | 0 <= i < |f| ensures Narrow(Widen(f))[i] == f[i] { NarrowByte(f[i]); }
  }

  /** A byte of a buffer counted up on the line's side. */
  function Counted(a: byte): bv8 { if a == 0 then 0 else Counted(a - 1) + 1 }

  lemma OneUp(b: bv8)
    requires b < 255
    ensures (b + 1) as int == b as int + 1
  {}

  lemma LastByte(b: bv8)
    ensures b as int <= 255 && (b == 255 <==> b as int == 255)
  {}

  lemma {:induction false} CountedIs(a: byte)
    ensures Counted(a) as int == a
  {
    if a > 0 {
      CountedIs(a - 1);
      LastByte(Counted(a - 1));
      OneUp(Counted(a - 1));
    }
  }

  lemma WidenByte(a: byte)
    ensures (a as bv8) as int == a
  {
    CountedIs(a);
    NarrowByte(Counted(a));
    hide Counted;
  }

  lemma WidenNarrow(s: seq<byte>)
    ensures Widen(Narrow(s)) == s
  {
    forall i | 0 <= i < |s| ensures Widen(Narrow(s))[i] == s[i] { WidenByte(s[i]); }
  }

  // ----- two hex digits -----

  function Digit(n: int): char
    requires 0 <= n < 16
  {
    if n < 10 then '0' + n as char else 'A' + (n - 10) as char
  }

  /** The format %02X. */
  function Hex2(b: byte): (s: string)
    ensures |s| == 2
  {
    [Digit(b / 16), Digit(b % 16)]
  }

  /** The value of a hex digit of either case, -1 for any other character. */
  function DigitValue(c: char): (v: int)
    ensures -1 <= v < 16
  {
    if '0' <= c <= '9' then c as int - '0' as int
    else if 'A' <= c <= 'F' then c as int - 'A' as int + 10
    else if 'a' <= c <= 'f' then c as int - 'a' as int + 10
    else -1
  }

  predicate IsSpace(c: char) { c == ' ' || 9 as char <= c <= 13 as char }

  function SkipSpace(s: string): (t: string)
    ensures |t| <= |s|
  {
    if |s| > 0 && IsSpace(s[0]) then SkipSpace(s[1..]) else s
  }

  /** stoi(s, NULL, 16) on one or two characters: white space, a sign, then as many digits as there are, at least one. */
  function Stoi16(s: string): Parsed
    requires |s| <= 2
  {
    var t := SkipSpace(s);
    var signed := |t| > 0 && (t[0] == '-' || t[0] == '+');
    var u := if signed then t[1..] else t;
    if |u| == 0 || DigitValue(u[0]) < 0 then NotANumber
    else
      var v := if |u| > 1 && DigitValue(u[1]) >= 0 then DigitValue(u[0]) * 16 + DigitValue(u[1]) else DigitValue(u[0]);
      Number(if signed && t[0] == '-' then -v else v)
  }

  lemma DigitBack(n: int)
    requires 0 <= n < 16
    ensures DigitValue(Digit(n)) == n && !IsSpace(Digit(n)) && Digit(n) != '-' && Digit(n) != '+' && Digit(n) != ' '
    ensures Digit(n) != '<' && Digit(n) != '>' && Digit(n) != '\n' && Digit(n) != '\r'
  {}

  lemma Hex2Back(b: byte)
    ensures Stoi16(Hex2(b)) == Number(b)
  {
    DigitBack(b / 16);
    DigitBack(b % 16);
    hide Digit, DigitValue, IsSpace;
  }

  // ----- lists of bytes as text -----

  function HexText(bs: seq<byte>): (s: string)
    ensures |s| == 2 * |bs|
  {
    if |bs| == 0 then "" else Hex2(bs[0]) + HexText(bs[1..])
  }

  /** The format <%02X>. */
  function Group(b: byte): string { "<" + Hex2(b) + ">" }

  function AngleText(bs: seq<byte>): (s: string)
    ensures |s| == 4 * |bs|
  {
    if |bs| == 0 then "" else Group(bs[0]) + AngleText(bs[1..])
  }

  function Kept(c: char): string { if c != '<' && c != '>' then [c] else "" }

  function WithoutAngles(s: string): string { if |s| == 0 then "" else Kept(s[0]) + WithoutAngles(s[1..]) }

  datatype Parsing = Good(req: seq<byte>) | Bad

  function Then(b: byte, rest: Parsing): Parsing {
    match rest
    case Good(req) => Good([b] + req)
    case Bad => Bad
  }

  /** Digits two at a time, the last one alone if their number is odd; the first group that is no number ends it. */
  function ParseRequest(s: string): Parsing {
    if |s| == 0 then Good([])
    else
      var two := if |s| >= 2 then 2 else 1;
      match Stoi16(s[..two])
      case NotANumber => Bad
      case Number(v) => Then(v % 0x100, ParseRequest(s[two..]))
  }

  /** Digits two at a time as long as there are two; a group that is no number repeats the byte before it. */
  function ParseReply(s: string, last: byte): (r: seq<byte>)
    ensures |r| == |s| / 2
  {
    if |s| < 2 then []
    else
      var b := ReplyByte(s[..2], last);
      [b] + ParseReply(s[2..], b)
  }

  function ReplyByte(s: string, last: byte): byte
    requires |s| <= 2
  {
    var p := Stoi16(s);
    if p.Number? then p.v % 0x100 else last
  }

  /** The pieces between blanks. */
  function Fields(s: string): (r: seq<string>)
    ensures |r| > 0
  {
    if |s| == 0 then [""]
    else if s[0] == ' ' then [""] + Fields(s[1..])
    else
      var f := Fields(s[1..]);
      [[s[0]] + f[0]] + f[1..]
  }

  // ----- round trips -----

  predicate Plain(c: char) { c != ' ' && c != '<' && c != '>' && c != '\n' && c != '\r' }

  lemma {:induction false} HexTextPlain(bs: seq<byte>)
    ensures forall i :: 0 <= i < |HexText(bs)| ==> Plain(HexText(bs)[i])
  {
    if |bs| > 0 {
      HexTextPlain(bs[1..]);
      DigitBack(bs[0] / 16);
      DigitBack(bs[0] % 16);
      hide Digit;
    }
  }

  lemma FirstTwo(bs: seq<byte>, tail: string)
    requires |bs| > 0
    ensures var s := HexText(bs) + tail; |s| >= 2 && s[..2] == Hex2(bs[0]) && s[2..] == HexText(bs[1..]) + tail
  {
    hide Hex2;
    var h, t := Hex2(bs[0]), HexText(bs[1..]);
    Assoc(h, t, tail);
  }

  lemma {:induction false} RequestBack(bs: seq<byte>)
    ensures ParseRequest(HexText(bs)) == Good(bs)
  {
    if |bs| > 0 {
      hide Hex2, Stoi16;
      Hex2Back(bs[0]);
      RequestBack(bs[1..]);
      FirstTwo(bs, "");
      hide HexText;
      assert HexText(bs) + "" == HexText(bs) && HexText(bs[1..]) + "" == HexText(bs[1..]);
    }
  }

  lemma {:induction false} ReplyBack(bs: seq<byte>, tail: string, last: byte)
    requires |tail| < 2
    ensures ParseReply(HexText(bs) + tail, last) == bs
  {
    if |bs| > 0 {
      hide Hex2, Stoi16;
      Hex2Back(bs[0]);
      ReplyBack(bs[1..], tail, bs[0]);
      FirstTwo(bs, tail);
      hide HexText;
    }
  }

  lemma OneMoreCharacter(c: char, s: string)
    ensures WithoutAngles([c] + s) == Kept(c) + WithoutAngles(s)
  {
    assert ([c] + s)[1..] == s;
  }

  lemma Assoc(a: string, b: string, c: string)
    ensures (a + b) + c == a + (b + c)
  {}

  lemma {:induction false} AnglesConcat(s: string, t: string)
    ensures WithoutAngles(s + t) == WithoutAngles(s) + WithoutAngles(t)
  {
    if |s| == 0 {
      assert s + t == t;
    } else {
      hide Kept;
      var c, s' := s[0], s[1..];
      assert s == [c] + s';
      Assoc([c], s', t);
      OneMoreCharacter(c, s');
      OneMoreCharacter(c, s' + t);
      AnglesConcat(s', t);
      hide WithoutAngles;
      Assoc(Kept(c), WithoutAngles(s'), WithoutAngles(t));
    }
  }

  lemma GroupOut(b: byte)
    ensures WithoutAngles(Group(b)) == Hex2(b)
  {
    DigitBack(b / 16);
    DigitBack(b % 16);
    var x, y := Digit(b / 16), Digit(b % 16);
    hide Digit;
    AnglesConcat("<", [x, y] + ">");
    AnglesConcat([x, y], ">");
    assert [x, y][1..] == [y] && [y][1..] == "";
    assert WithoutAngles("<") == "" && WithoutAngles(">") == "" && WithoutAngles([y]) == [y];
    assert Group(b) == "<" + ([x, y] + ">");
  }

  lemma {:induction false} AnglesOut(bs: seq<byte>)
    ensures WithoutAngles(AngleText(bs)) == HexText(bs)
  {
    if |bs| > 0 {
      AnglesOut(bs[1..]);
      GroupOut(bs[0]);
      AnglesConcat(Group(bs[0]), AngleText(bs[1..]));
    }
  }

  lemma {:induction false} OneField(s: string)
    requires forall i :: 0 <= i < |s| ==> s[i] != ' '
    ensures Fields(s) == [s]
  {
    if |s| > 0 {
      OneField(s[1..]);
      assert [s[0]] + s[1..] == s;
    }
  }

  lemma {:induction false} FirstField(s: string, t: string)
    requires forall i :: 0 <= i < |s| ==> s[i] != ' '
    ensures Fields(s + " " + t) == [s] + Fields(t)
  {
    if |s| == 0 {
      assert (s + " " + t)[1..] == t;
    } else {
      FirstField(s[1..], t);
      assert [s[0]] + s[1..] == s;
      assert (s + " " + t)[1..] == s[1..] + " " + t;
    }
  }

  // ----- what is text and what is not -----

  const UPPER: string := "0123456789ABCDEF"
  const LOWER: string := "0123456789abcdef"

  /** Digits are printed in capitals and read in both. */
  lemma DigitsAre(n: int, c: char)
    requires 0 <= n < 16
    ensures Digit(n) == UPPER[n]
    ensures DigitValue(c) == n <==> c == UPPER[n] || c == LOWER[n]
    ensures DigitValue(c) < 0 <==> c !in UPPER && c !in LOWER
  {}

  /** Two characters are a number if the first is a digit, or the second is and the first is white space or a sign. */
  lemma Stoi16Is(a: char, b: char)
    ensures var x, y := DigitValue(a), DigitValue(b);
            Stoi16([a, b]) ==
            if x >= 0 then Number(if y >= 0 then x * 16 + y else x)
            else if y >= 0 && (a == ' ' || 9 as char <= a <= 13 as char || a == '+' || a == '-') then Number(if a == '-' then -y else y)
            else NotANumber
  {
    var s := [a, b];
    assert s[1..] == [b] && [b][1..] == [];
    assert SkipSpace(s) == if IsSpace(a) then SkipSpace([b]) else s;
    assert SkipSpace([b]) == if IsSpace(b) then SkipSpace([]) else [b];
  }

  /** The group of characters that makes byte k: two, or the last one alone. */
  function GroupAt(s: string, k: nat): string
    requires 2 * k < |s|
  {
    if 2 * k + 2 <= |s| then s[2 * k..2 * k + 2] else s[2 * k..]
  }

  lemma GroupsOfRest(s: string)
    requires |s| > 0
    ensures var two := if |s| >= 2 then 2 else 1;
            GroupAt(s, 0) == s[..two] && forall k: nat :: 2 * k < |s[two..]| ==> GroupAt(s, k + 1) == GroupAt(s[two..], k)
  {}

  /** Every group is a number, and byte k is that of group k modulo 0x100. */
  ghost predicate GroupBytes(s: string, req: seq<byte>) {
    && |req| == (|s| + 1) / 2
    && forall k: nat :: 2 * k < |s| ==> Stoi16(GroupAt(s, k)).Number? && req[k] == Stoi16(GroupAt(s, k)).v % 0x100
  }

  lemma OneGroupMore(s: string, rest: seq<byte>)
    requires |s| > 0 && Stoi16(GroupAt(s, 0)).Number? && GroupBytes(s[if |s| >= 2 then 2 else 1..], rest)
    ensures GroupBytes(s, [Stoi16(GroupAt(s, 0)).v % 0x100] + rest)
  {
    var t := s[if |s| >= 2 then 2 else 1..];
    GroupsOfRest(s);
    hide Stoi16;
    var req := [Stoi16(GroupAt(s, 0)).v % 0x100] + rest;
    forall k: nat | 2 * k < |s| ensures Stoi16(GroupAt(s, k)).Number? && req[k] == Stoi16(GroupAt(s, k)).v % 0x100 {
      if k > 0 { assert GroupAt(s, (k - 1) + 1) == GroupAt(t, k - 1) && req[k] == rest[k - 1]; }
    }
  }

  /** A text is a request if and only if every group is a number, and then the request is their bytes. */
  lemma {:induction false} RequestIff(s: string)
    ensures ParseRequest(s).Good? ==> GroupBytes(s, ParseRequest(s).req)
    ensures ParseRequest(s).Bad? ==> exists k: nat :: 2 * k < |s| && Stoi16(GroupAt(s, k)).NotANumber?
    decreases |s|
  {
    hide Stoi16, GroupBytes;
    if |s| == 0 {
      NoGroup();
    } else {
      var t := s[if |s| >= 2 then 2 else 1..];
      GroupsOfRest(s);
      RequestIff(t);
      if ParseRequest(s).Good? {
        OneGroupMore(s, ParseRequest(t).req);
      } else if ParseRequest(t).Bad? {
        var k: nat :| 2 * k < |t| && Stoi16(GroupAt(t, k)).NotANumber?;
        assert GroupAt(s, k + 1) == GroupAt(t, k);
      }
    }
  }

  lemma NoGroup()
    ensures GroupBytes("", [])
  {}

  /** Byte k of an answer is that of group k, or, if that is no number, the byte before it once more. */
  lemma {:induction false} ReplyAt(s: string, last: byte, k: nat)
    requires 2 * k + 2 <= |s|
    ensures var group := s[2 * k..2 * k + 2];
            ParseReply(s, last)[k] == if Stoi16(group).Number? then Stoi16(group).v % 0x100 else if k == 0 then last else ParseReply(s, last)[k - 1]
    decreases k
  {
    hide Stoi16;
    if k > 0 {
      ReplyAt(s[2..], ReplyByte(s[..2], last), k - 1);
      assert s[2..][2 * (k - 1)..2 * (k - 1) + 2] == s[2 * k..2 * k + 2];
    }
  }

  /** Pieces with a blank between each two. */
  function Glued(fs: seq<string>): string {
    if |fs| == 0 then "" else if |fs| == 1 then fs[0] else fs[0] + " " + Glued(fs[1..])
  }

  /** The fields of a line are pieces without blanks, and with a blank between each two they are the line again. */
  lemma {:induction false} FieldsAre(s: string)
    ensures Glued(Fields(s)) == s && forall i :: 0 <= i < |Fields(s)| ==> ' ' !in Fields(s)[i]
  {
    if |s| > 0 {
      FieldsAre(s[1..]);
      var f := Fields(s[1..]);
      if s[0] == ' ' {
        assert Fields(s)[1..] == f;
        assert Glued(Fields(s)) == "" + " " + Glued(f);
      } else {
        assert Fields(s)[1..] == f[1..];
        assert Glued(Fields(s)) == [s[0]] + Glued(f);
      }
    }
  }
}
