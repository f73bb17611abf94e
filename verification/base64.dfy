/**
 * Base64 with the standard alphabet and '=' padding (section 4 of RFC 4648), as
 * base64.b64encode produces it for the image payloads, and a strict decoder for
 * well-formed text, used to state the round trip the client relies on.
 */
module Base64 {

  import opened Results

  type Byte = b: int | 0 <= b < 256

  /** A 6-bit group value, the index of a character in the alphabet. */
  type Sextet = i: int | 0 <= i < 64

  /** The encoding alphabet (RFC 4648, Table 1). */
  function Digit(i: Sextet): (c: char)
    ensures c != '='
  {
    if i < 26 then ('A' as int + i) as char
    else if i < 52 then ('a' as int + (i - 26)) as char
    else if i < 62 then ('0' as int + (i - 52)) as char
    else if i == 62 then '+'
    else '/'
  }

  /** The inverse of Digit; None for a character outside the alphabet. */
  function IndexOf(c: char): Option<Sextet> {
    if 'A' <= c <= 'Z' then Some(c as int - 'A' as int)
    else if 'a' <= c <= 'z' then Some(c as int - 'a' as int + 26)
    else if '0' <= c <= '9' then Some(c as int - '0' as int + 52)
    else if c == '+' then Some(62)
    else if c == '/' then Some(63)
    else None
  }

  /** IndexOf inverts Digit. */
  lemma IndexOfDigit(i: Sextet)
    ensures IndexOf(Digit(i)) == Some(i)
  {
  }

  /** Three bytes as four characters. */
  function EncodeGroup(b0: Byte, b1: Byte, b2: Byte): (s: string)
    ensures |s| == 4
  {
    [Digit(b0 / 4), Digit((b0 % 4) * 16 + b1 / 16), Digit((b1 % 16) * 4 + b2 / 64), Digit(b2 % 64)]
  }

  /** base64.b64encode: full groups, then a final group padded with '='. */
  function Encode(data: seq<Byte>): (s: string)
    ensures |s| == (|data| + 2) / 3 * 4
  {
    if |data| == 0 then ""
    else if |data| == 1 then EncodeGroup(data[0], 0, 0)[..2] + "=="
    else if |data| == 2 then EncodeGroup(data[0], data[1], 0)[..3] + "="
    else EncodeGroup(data[0], data[1], data[2]) + Encode(data[3..])
  }

  /** The three bytes four sextets carry. */
  function GroupBytes(i0: Sextet, i1: Sextet, i2: Sextet, i3: Sextet): seq<Byte> {
    [i0 * 4 + i1 / 16, (i1 % 16) * 16 + i2 / 4, (i2 % 4) * 64 + i3]
  }

  /** Decodes one group of four characters; `last` allows the padded forms "xx==" and "xxx=". */
  function DecodeGroup(g: string, last: bool): Option<seq<Byte>>
    requires |g| == 4
  {
    match (IndexOf(g[0]), IndexOf(g[1]), IndexOf(g[2]), IndexOf(g[3]))
    case (Some(i0), Some(i1), Some(i2), Some(i3)) => Some(GroupBytes(i0, i1, i2, i3))
    case (Some(i0), Some(i1), Some(i2), None) =>
      if last && g[3] == '=' then Some(GroupBytes(i0, i1, i2, 0)[..2]) else None
    case (Some(i0), Some(i1), None, None) =>
      if last && g[2..] == "==" then Some(GroupBytes(i0, i1, 0, 0)[..1]) else None
    case _ => None
  }

  /** Strict decoding of padded base64 text; None when the text is not well formed. */
  function Decode(s: string): Option<seq<Byte>>
    decreases |s|
  {
    if |s| == 0 then Some([])
    else if |s| < 4 then None
    else
      match DecodeGroup(s[..4], |s| == 4)
      case None => None
      case Some(head) =>
        match Decode(s[4..])
        case None => None
        case Some(tail) => Some(head + tail)
  }

  /** Splitting three bytes into sextets and joining them again restores the bytes. */
  lemma GroupRoundTrip(b0: Byte, b1: Byte, b2: Byte)
    ensures GroupBytes(b0 / 4, (b0 % 4) * 16 + b1 / 16, (b1 % 16) * 4 + b2 / 64, b2 % 64) == [b0, b1, b2]
  {
    assert ((b0 % 4) * 16 + b1 / 16) / 16 == b0 % 4;
    assert ((b0 % 4) * 16 + b1 / 16) % 16 == b1 / 16;
    assert ((b1 % 16) * 4 + b2 / 64) / 4 == b1 % 16;
    assert ((b1 % 16) * 4 + b2 / 64) % 4 == b2 / 64;
  }

  /** A full group decodes to its three bytes, last or not. */
  lemma DecodeGroupOfEncodeGroup(b0: Byte, b1: Byte, b2: Byte, last: bool)
    ensures DecodeGroup(EncodeGroup(b0, b1, b2), last) == Some([b0, b1, b2])
  {
    var i0, i1, i2, i3 := b0 / 4, (b0 % 4) * 16 + b1 / 16, (b1 % 16) * 4 + b2 / 64, b2 % 64;
    IndexOfDigit(i0); IndexOfDigit(i1); IndexOfDigit(i2); IndexOfDigit(i3);
    GroupRoundTrip(b0, b1, b2);
  }

  /** One trailing byte: "xx==". */
  lemma DecodeEncodeOne(b0: Byte)
    ensures Decode(Encode([b0])) == Some([b0])
  {
    var i0, i1 := b0 / 4, (b0 % 4) * 16;
    var s := Encode([b0]);
    assert s == [Digit(i0), Digit(i1), '=', '='];
    IndexOfDigit(i0); IndexOfDigit(i1);
    GroupRoundTrip(b0, 0, 0);
    assert GroupBytes(i0, i1, 0, 0)[..1] == [b0];
    assert s[..4] == s && s[4..] == "" && s[2..] == "==";
    assert DecodeGroup(s[..4], true) == Some([b0]);
    assert Decode(s[4..]) == Some([]);
    assert [b0] + [] == [b0];
  }

  /** Two trailing bytes: "xxx=". */
  lemma DecodeEncodeTwo(b0: Byte, b1: Byte)
    ensures Decode(Encode([b0, b1])) == Some([b0, b1])
  {
    var i0, i1, i2 := b0 / 4, (b0 % 4) * 16 + b1 / 16, (b1 % 16) * 4;
    var s := Encode([b0, b1]);
    assert s == [Digit(i0), Digit(i1), Digit(i2), '='];
    IndexOfDigit(i0); IndexOfDigit(i1); IndexOfDigit(i2);
    GroupRoundTrip(b0, b1, 0);
    assert GroupBytes(i0, i1, i2, 0)[..2] == [b0, b1];
    assert s[..4] == s && s[4..] == "";
    assert DecodeGroup(s[..4], true) == Some([b0, b1]);
    assert Decode(s[4..]) == Some([]);
    assert [b0, b1] + [] == [b0, b1];
  }

  /** Decoding proceeds group by group. */
  lemma DecodeGroupThenRest(g: string, rest: string, head: seq<Byte>, tail: seq<Byte>)
    requires |g| == 4 && DecodeGroup(g, rest == "") == Some(head) && Decode(rest) == Some(tail)
    ensures Decode(g + rest) == Some(head + tail)
  {
    var s := g + rest;
    assert s[..4] == g && s[4..] == rest;
  }

  /** Encoding emits the first full group, then encodes the rest. */
  lemma EncodeStep(data: seq<Byte>)
    requires |data| >= 3
    ensures Encode(data) == EncodeGroup(data[0], data[1], data[2]) + Encode(data[3..])
    ensures Encode(data[3..]) == "" <==> |data| == 3
  {
  }

  /** A full group followed by the encoding of the rest decodes group by group. */
  lemma DecodeEncodeGroups(data: seq<Byte>)
    requires |data| >= 3
    requires Decode(Encode(data[3..])) == Some(data[3..])
    ensures Decode(EncodeGroup(data[0], data[1], data[2]) + Encode(data[3..])) == Some([data[0], data[1], data[2]] + data[3..])
  {
    DecodeGroupOfEncodeGroup(data[0], data[1], data[2], Encode(data[3..]) == "");
    DecodeGroupThenRest(EncodeGroup(data[0], data[1], data[2]), Encode(data[3..]), [data[0], data[1], data[2]], data[3..]);
  }

  /** The first three bytes followed by the rest are the whole input. */
  lemma SplitGroup(data: seq<Byte>)
    requires |data| >= 3
    ensures [data[0], data[1], data[2]] + data[3..] == data
  {
  }

  /** The round trip extends from the rest to the whole input one group at a time. */
  lemma DecodeEncodeStep(data: seq<Byte>)
    requires |data| >= 3
    requires Decode(Encode(data[3..])) == Some(data[3..])
    ensures Decode(Encode(data)) == Some(data)
  {
    EncodeStep(data);
    DecodeEncodeGroups(data);
    SplitGroup(data);
  }

  /** The client's base64.b64decode of the payload gives back exactly the encoded bytes. */
  lemma {:induction false} DecodeEncode(data: seq<Byte>)
    ensures Decode(Encode(data)) == Some(data)
    decreases |data|
  {
    if |data| == 1 {
      assert data == [data[0]];
      DecodeEncodeOne(data[0]);
    } else if |data| == 2 {
      assert data == [data[0], data[1]];
      DecodeEncodeTwo(data[0], data[1]);
    } else if |data| >= 3 {
      DecodeEncode(data[3..]);
      DecodeEncodeStep(data);
    }
  }

  /** Different byte strings have different encodings. */
  lemma EncodeInjective(a: seq<Byte>, b: seq<Byte>)
    requires Encode(a) == Encode(b)
    ensures a == b
  {
    DecodeEncode(a);
    DecodeEncode(b);
  }
}
