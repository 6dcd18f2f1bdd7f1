/** Base64 as section 4 of RFC 4648 defines it (the standard alphabet, with
    `=` padding), which `Buffer.toString("base64")` produces. The decoder
    is the partner the round trip is proved against. */
module Base64 {
  import opened Wrappers

  newtype byte = x: int | 0 <= x < 256

  /** The value of a 6-bit group as an alphabet character (Table 1 of the RFC). */
  function CharOf(v: int): (c: char)
    requires 0 <= v < 64
    ensures c != '='
  {
    if v < 26 then ('A' as int + v) as char
    else if v < 52 then ('a' as int + (v - 26)) as char
    else if v < 62 then ('0' as int + (v - 52)) as char
    else if v == 62 then '+'
    else '/'
  }

  /** The 6-bit value of an alphabet character, if it is one. */
  function ValueOf(c: char): (r: Option<int>)
    ensures r.Some? ==> 0 <= r.value < 64 && CharOf(r.value) == c
  {
    if 'A' <= c <= 'Z' then Some(c as int - 'A' as int)
    else if 'a' <= c <= 'z' then Some(c as int - 'a' as int + 26)
    else if '0' <= c <= '9' then Some(c as int - '0' as int + 52)
    else if c == '+' then Some(62)
    else if c == '/' then Some(63)
    else None
  }

  lemma ValueOfCharOf(v: int)
    requires 0 <= v < 64
    ensures ValueOf(CharOf(v)) == Some(v)
  {
  }

  predicate IsAlphabetChar(c: char) {
    ValueOf(c).Some?
  }

  /** Text made only of alphabet characters and padding. */
  predicate IsBase64Text(s: string) {
    forall i :: 0 <= i < |s| ==> IsAlphabetChar(s[i]) || s[i] == '='
  }

  lemma Base64TextAppend(a: string, b: string)
    requires IsBase64Text(a) && IsBase64Text(b)
    ensures IsBase64Text(a + b)
  {
    forall i | 0 <= i < |a + b| ensures IsAlphabetChar((a + b)[i]) || (a + b)[i] == '=' {
      if i >= |a| { assert (a + b)[i] == b[i - |a|]; }
    }
  }

  /** Three bytes as four characters: the 24 bits are cut into four 6-bit
      groups, most significant first. */
  function EncodeBlock(b0: byte, b1: byte, b2: byte): (s: string)
    ensures |s| == 4 && IsBase64Text(s)
  {
    var x0, x1, x2 := b0 as int, b1 as int, b2 as int;
    ValueOfCharOf(x0 / 4);
    ValueOfCharOf((x0 % 4) * 16 + x1 / 16);
    ValueOfCharOf((x1 % 16) * 4 + x2 / 64);
    ValueOfCharOf(x2 % 64);
    [CharOf(x0 / 4), CharOf((x0 % 4) * 16 + x1 / 16), CharOf((x1 % 16) * 4 + x2 / 64), CharOf(x2 % 64)]
  }

  /** One trailing byte: its 8 bits padded with zeros to two groups, then `==`. */
  function EncodeLastOne(b0: byte): (s: string)
    ensures |s| == 4 && IsBase64Text(s)
  {
    var x0 := b0 as int;
    ValueOfCharOf(x0 / 4);
    ValueOfCharOf((x0 % 4) * 16);
    [CharOf(x0 / 4), CharOf((x0 % 4) * 16), '=', '=']
  }

  /** Two trailing bytes: their 16 bits padded with zeros to three groups, then `=`. */
  function EncodeLastTwo(b0: byte, b1: byte): (s: string)
    ensures |s| == 4 && IsBase64Text(s)
  {
    var x0, x1 := b0 as int, b1 as int;
    ValueOfCharOf(x0 / 4);
    ValueOfCharOf((x0 % 4) * 16 + x1 / 16);
    ValueOfCharOf((x1 % 16) * 4);
    [CharOf(x0 / 4), CharOf((x0 % 4) * 16 + x1 / 16), CharOf((x1 % 16) * 4), '=']
  }

  /** `Buffer.from(bytes).toString("base64")`: whole blocks, then one or two
      trailing bytes padded with `=` to a full quantum. */
  function Encode(bs: seq<byte>): (s: string)
    ensures |s| == 4 * ((|bs| + 2) / 3)
    ensures IsBase64Text(s)
  {
    if |bs| == 0 then []
    else if |bs| == 1 then EncodeLastOne(bs[0])
    else if |bs| == 2 then EncodeLastTwo(bs[0], bs[1])
    else
      var b := EncodeBlock(bs[0], bs[1], bs[2]);
      Base64TextAppend(b, Encode(bs[3..]));
      QuantaStep(|bs|);
      b + Encode(bs[3..])
  }

  /** Three more bytes take one more quantum. */
  lemma QuantaStep(n: int)
    requires n >= 3
    ensures 4 * ((n + 2) / 3) == 4 + 4 * ((n - 3 + 2) / 3)
  {
  }

  /** Four characters back to up to three bytes. */
  function DecodeQuantum(s: string): (r: Option<seq<byte>>)
    requires |s| == 4
    ensures r.Some? ==> 1 <= |r.value| <= 3
  {
    var v0 := ValueOf(s[0]);
    var v1 := ValueOf(s[1]);
    var v2 := ValueOf(s[2]);
    var v3 := ValueOf(s[3]);
    if v0.None? || v1.None? then None
    else
      var b0 := (v0.value * 4 + v1.value / 16) as byte;
      if s[2] == '=' && s[3] == '=' then
        if v1.value % 16 != 0 then None else Some([b0])
      else if v2.None? then None
      else
        var b1 := ((v1.value % 16) * 16 + v2.value / 4) as byte;
        if s[3] == '=' then
          if v2.value % 4 != 0 then None else Some([b0, b1])
        else if v3.None? then None
        else Some([b0, b1, ((v2.value % 4) * 64 + v3.value) as byte])
  }

  /** The decoder: the text must be whole quanta, padding only in the last. */
  function Decode(s: string): (r: Option<seq<byte>>)
    decreases |s|
  {
    if |s| == 0 then Some([])
    else if |s| < 4 then None
    else
      match DecodeQuantum(s[..4])
      case None => None
      case Some(head) =>
        if |head| < 3 && |s| > 4 then None
        else
          match Decode(s[4..])
          case None => None
          case Some(tail) => Some(head + tail)
  }

  /** Cutting `q * 16 + r` by 16 gives back the two parts. */
  lemma CutAt16(q: int, r: int)
    requires 0 <= q && 0 <= r < 16
    ensures (q * 16 + r) / 16 == q && (q * 16 + r) % 16 == r
  {
  }

  /** Cutting `q * 4 + r` by 4 gives back the two parts. */
  lemma CutAt4(q: int, r: int)
    requires 0 <= q && 0 <= r < 4
    ensures (q * 4 + r) / 4 == q && (q * 4 + r) % 4 == r
  {
  }

  /** The first byte comes back from the first two 6-bit groups. */
  lemma RejoinFirst(b0: int, b1: int)
    requires 0 <= b0 < 256 && 0 <= b1 < 256
    ensures (b0 / 4) * 4 + ((b0 % 4) * 16 + b1 / 16) / 16 == b0
    ensures ((b0 % 4) * 16 + b1 / 16) % 16 == b1 / 16
  {
    CutAt16(b0 % 4, b1 / 16);
  }

  /** The second byte comes back from the second and third groups. */
  lemma RejoinSecond(b1: int, b2: int)
    requires 0 <= b1 < 256 && 0 <= b2 < 256
    ensures (b1 / 16) * 16 + ((b1 % 16) * 4 + b2 / 64) / 4 == b1
    ensures ((b1 % 16) * 4 + b2 / 64) % 4 == b2 / 64
  {
    CutAt4(b1 % 16, b2 / 64);
  }

  lemma DecodeBlock(b0: byte, b1: byte, b2: byte)
    ensures DecodeQuantum(EncodeBlock(b0, b1, b2)) == Some([b0, b1, b2])
  {
    var x0, x1, x2 := b0 as int, b1 as int, b2 as int;
    var v0, v1, v2, v3 := x0 / 4, (x0 % 4) * 16 + x1 / 16, (x1 % 16) * 4 + x2 / 64, x2 % 64;
    ValueOfCharOf(v0);
    ValueOfCharOf(v1);
    ValueOfCharOf(v2);
    ValueOfCharOf(v3);
    RejoinFirst(x0, x1);
    RejoinSecond(x1, x2);
    assert v0 * 4 + v1 / 16 == x0;
    assert (v1 % 16) * 16 + v2 / 4 == x1;
    assert (v2 % 4) * 64 + v3 == x2;
  }

  /** One trailing byte: two characters and two `=`. */
  lemma DecodePair(b0: byte)
    ensures DecodeQuantum(Encode([b0])) == Some([b0])
  {
    var x0 := b0 as int;
    ValueOfCharOf(x0 / 4);
    ValueOfCharOf((x0 % 4) * 16);
    RejoinFirst(x0, 0);
  }

  /** Two trailing bytes: three characters and one `=`. */
  lemma DecodeTriple(b0: byte, b1: byte)
    ensures DecodeQuantum(Encode([b0, b1])) == Some([b0, b1])
  {
    var x0, x1 := b0 as int, b1 as int;
    var v0, v1, v2 := x0 / 4, (x0 % 4) * 16 + x1 / 16, (x1 % 16) * 4;
    ValueOfCharOf(v0);
    ValueOfCharOf(v1);
    ValueOfCharOf(v2);
    RejoinFirst(x0, x1);
    RejoinSecond(x1, 0);
    assert v0 * 4 + v1 / 16 == x0;
    assert (v1 % 16) * 16 + v2 / 4 == x1;
    assert v2 % 4 == 0;
  }

  lemma DecodeEncodeOne(bs: seq<byte>)
    requires |bs| == 1
    ensures Decode(Encode(bs)) == Some(bs)
  {
    var s := Encode(bs);
    DecodePair(bs[0]);
    assert bs == [bs[0]];
    assert s[..4] == s;
    assert Decode(s[4..]) == Some([]);
    assert bs + [] == bs;
  }

  lemma DecodeEncodeTwo(bs: seq<byte>)
    requires |bs| == 2
    ensures Decode(Encode(bs)) == Some(bs)
  {
    var s := Encode(bs);
    DecodeTriple(bs[0], bs[1]);
    assert bs == [bs[0], bs[1]];
    assert s[..4] == s;
    assert Decode(s[4..]) == Some([]);
    assert bs + [] == bs;
  }

  /** At least three bytes: a full block, then the rest. */
  lemma EncodeCons(bs: seq<byte>)
    requires |bs| >= 3
    ensures Encode(bs) == EncodeBlock(bs[0], bs[1], bs[2]) + Encode(bs[3..])
  {
  }

  /** A full leading quantum is decoded, then the rest. */
  lemma DecodeFullQuantum(s: string, head: seq<byte>, tail: seq<byte>)
    requires |s| >= 4 && |head| == 3
    requires DecodeQuantum(s[..4]) == Some(head) && Decode(s[4..]) == Some(tail)
    ensures Decode(s) == Some(head + tail)
  {
  }

  /** At least three bytes: the leading block decodes, then the rest does. */
  lemma {:induction false} DecodeEncodeBlocks(bs: seq<byte>)
    requires |bs| >= 3
    ensures Decode(Encode(bs)) == Some(bs)
    decreases |bs|, 0
  {
    var block := EncodeBlock(bs[0], bs[1], bs[2]);
    var rest := Encode(bs[3..]);
    EncodeCons(bs);
    SplitQuantum(Encode(bs), block, rest);
    DecodeBlock(bs[0], bs[1], bs[2]);
    DecodeEncode(bs[3..]);
    DecodeFullQuantum(Encode(bs), [bs[0], bs[1], bs[2]], bs[3..]);
    FirstThree(bs);
  }

  /** A text made of a quantum and a rest splits back into the two. */
  lemma SplitQuantum(s: string, block: string, rest: string)
    requires s == block + rest && |block| == 4
    ensures s[..4] == block && s[4..] == rest
  {
  }

  lemma FirstThree(bs: seq<byte>)
    requires |bs| >= 3
    ensures [bs[0], bs[1], bs[2]] + bs[3..] == bs
  {
  }

  /** Decoding what was encoded gives the bytes back. */
  lemma {:induction false} DecodeEncode(bs: seq<byte>)
    ensures Decode(Encode(bs)) == Some(bs)
    decreases |bs|, 1
  {
    if |bs| == 1 {
      DecodeEncodeOne(bs);
    } else if |bs| == 2 {
      DecodeEncodeTwo(bs);
    } else if |bs| >= 3 {
      DecodeEncodeBlocks(bs);
    }
  }

  /** Encoding is injective: different bytes never share a Base64 text. */
  lemma EncodeInjective(a: seq<byte>, b: seq<byte>)
    requires Encode(a) == Encode(b)
    ensures a == b
  {
    DecodeEncode(a);
    DecodeEncode(b);
  }
}
