/** Bytes, 16-bit words and the packing macros of modbus.h. */
module Bytes {
  type byte = x: int | 0 <= x < 0x100
  type word = x: int | 0 <= x < 0x1_0000

  function High(w: word): byte { w / 0x100 }

  function Low(w: word): byte { w % 0x100 }

  function Join(high: byte, low: byte): word { (high as int) * 0x100 + low }

  lemma JoinParts(w: word)
    ensures Join(High(w), Low(w)) == w
  {}

  /** The 16-bit wrap-around of an assignment to uint16_t. */
  function Wrap16(x: int): word { x % 0x1_0000 }

  lemma WrapAdd(x: int, y: int)
    ensures Wrap16(Wrap16(x) as int + y) == Wrap16(x + y)
  {
    var q := x / 0x1_0000;
    assert x + y == (Wrap16(x) as int + y) + q * 0x1_0000;
  }

  /** MODBUS_SET_INT16_TO_INT8: high byte first. */
  function Int16Bytes(w: word): seq<byte> { [High(w), Low(w)] }

  /** MODBUS_GET_INT16_FROM_INT8. */
  function GetInt16(s: seq<byte>, i: nat): word
    requires i + 1 < |s|
  {
    Join(s[i], s[i + 1])
  }

  /** Words one after the other, each high byte first. */
  function Pack(ws: seq<word>): (bs: seq<byte>)
    ensures |bs| == 2 * |ws|
  {
    if |ws| == 0 then [] else Int16Bytes(ws[0]) + Pack(ws[1..])
  }

  /** The words read back from the even positions. */
  function Unpack(bs: seq<byte>): (ws: seq<word>)
    ensures |ws| == |bs| / 2
  {
    if |bs| < 2 then [] else [GetInt16(bs, 0)] + Unpack(bs[2..])
  }

  lemma {:induction false} UnpackPack(ws: seq<word>)
    ensures Unpack(Pack(ws)) == ws
  {
    if |ws| > 0 {
      assert Pack(ws)[2..] == Pack(ws[1..]);
      UnpackPack(ws[1..]);
    }
  }

  lemma {:induction false} PackUnpack(bs: seq<byte>)
    requires |bs| % 2 == 0
    ensures Pack(Unpack(bs)) == bs
  {
    if |bs| > 0 {
      PackUnpack(bs[2..]);
      assert Unpack(bs)[1..] == Unpack(bs[2..]);
      assert bs == bs[..2] + bs[2..];
      assert Int16Bytes(GetInt16(bs, 0)) == bs[..2];
    }
  }

  lemma {:induction false} PackAppend(ws: seq<word>, w: word)
    ensures Pack(ws + [w]) == Pack(ws) + Int16Bytes(w)
  {
    if |ws| == 0 {
      assert [w][1..] == [];
      assert Pack([]) == [];
    } else {
      assert (ws + [w])[1..] == ws[1..] + [w];
      PackAppend(ws[1..], w);
      assert Pack(ws + [w]) == Int16Bytes(ws[0]) + (Pack(ws[1..]) + Int16Bytes(w));
    }
  }

  lemma {:induction false} UnpackAt(bs: seq<byte>, k: nat)
    requires 2 * k + 1 < |bs|
    ensures k < |Unpack(bs)| && Unpack(bs)[k] == GetInt16(bs, 2 * k)
    decreases k
  {
    if k > 0 {
      UnpackAt(bs[2..], k - 1);
      assert Unpack(bs)[k] == Unpack(bs[2..])[k - 1];
    }
  }

  lemma {:induction false} PackAt(ws: seq<word>, k: nat)
    requires k < |ws|
    ensures Pack(ws)[2 * k] == High(ws[k]) && Pack(ws)[2 * k + 1] == Low(ws[k])
    decreases k
  {
    if k > 0 { PackAt(ws[1..], k - 1); }
  }
}
