/**
 * Base64 with the standard alphabet and `=` padding, as defined in section 4
 * of RFC 4648 (the `STANDARD` engine used for HTTP Basic credentials).
 */
module Base64 {
  import opened Common

  /** The character that stands for the 6-bit value `i`. */
  function CharOf(i: int): (c: char)
    requires 0 <= i < 64
  {
    if i < 26 then ('A' as int + i) as char
    else if i < 52 then ('a' as int + (i - 26)) as char
    else if i < 62 then ('0' as int + (i - 52)) as char
    else if i == 62 then '+'
    else '/'
  }

  /** The 6-bit value a character stands for, or None for a character outside the alphabet. */
  function IndexOf(c: char): (r: Option<int>)
    ensures r.Some? ==> 0 <= r.value < 64 && CharOf(r.value) == c
  {
    if 'A' <= c <= 'Z' then Some(c as int - 'A' as int)
    else if 'a' <= c <= 'z' then Some(c as int - 'a' as int + 26)
    else if '0' <= c <= '9' then Some(c as int - '0' as int + 52)
    else if c == '+' then Some(62)
    else if c == '/' then Some(63)
    else None
  }

  predicate InAlphabet(c: char)
  {
    IndexOf(c).Some?
  }

  lemma IndexOfCharOf(i: int)
    requires 0 <= i < 64
    ensures IndexOf(CharOf(i)) == Some(i)
  {
  }

  /** Three octets become four characters. */
  function EncodeBlock(b0: byte, b1: byte, b2: byte): string
  {
    [CharOf(b0 / 4), CharOf((b0 % 4) * 16 + b1 / 16), CharOf((b1 % 16) * 4 + b2 / 64), CharOf(b2 % 64)]
  }

  /** A final single octet: two characters and two pad characters. */
  function EncodeOne(b0: byte): string
  {
    [CharOf(b0 / 4), CharOf((b0 % 4) * 16), '=', '=']
  }

  /** A final pair of octets: three characters and one pad character. */
  function EncodeTwo(b0: byte, b1: byte): string
  {
    [CharOf(b0 / 4), CharOf((b0 % 4) * 16 + b1 / 16), CharOf((b1 % 16) * 4), '=']
  }

  function Encode(bs: seq<byte>): (r: string)
    ensures |r| == 4 * ((|bs| + 2) / 3)
    decreases |bs|
  {
    if |bs| == 0 then ""
    else if |bs| == 1 then EncodeOne(bs[0])
    else if |bs| == 2 then EncodeTwo(bs[0], bs[1])
    else EncodeBlock(bs[0], bs[1], bs[2]) + Encode(bs[3..])
  }

  /** Each character is from the alphabet, or is a pad character in one of the last two positions. */
  predicate AlphabetOrPadding(r: string)
  {
    forall i | 0 <= i < |r| :: InAlphabet(r[i]) || (r[i] == '=' && i >= |r| - 2)
  }

  lemma BlockAlphabet(b0: byte, b1: byte, b2: byte)
    ensures forall i | 0 <= i < 4 :: InAlphabet(EncodeBlock(b0, b1, b2)[i])
  {
    var h := EncodeBlock(b0, b1, b2);
    IndexOfCharOf(b0 / 4);
    IndexOfCharOf((b0 % 4) * 16 + b1 / 16);
    IndexOfCharOf((b1 % 16) * 4 + b2 / 64);
    IndexOfCharOf(b2 % 64);
    assert InAlphabet(h[0]) && InAlphabet(h[1]) && InAlphabet(h[2]) && InAlphabet(h[3]);
  }

  /** Every character of an encoding is from the alphabet, except padding in the last two positions. */
  lemma {:induction false} EncodeAlphabet(bs: seq<byte>)
    ensures AlphabetOrPadding(Encode(bs))
    decreases |bs|
  {
    var r := Encode(bs);
    if |bs| == 1 {
      IndexOfCharOf(bs[0] / 4);
      IndexOfCharOf((bs[0] % 4) * 16);
    } else if |bs| == 2 {
      IndexOfCharOf(bs[0] / 4);
      IndexOfCharOf((bs[0] % 4) * 16 + bs[1] / 16);
      IndexOfCharOf((bs[1] % 16) * 4);
    } else if |bs| > 2 {
      var h, t := EncodeBlock(bs[0], bs[1], bs[2]), Encode(bs[3..]);
      BlockAlphabet(bs[0], bs[1], bs[2]);
      EncodeAlphabet(bs[3..]);
      assert r == h + t;
      forall i | 0 <= i < |r| ensures InAlphabet(r[i]) || (r[i] == '=' && i >= |r| - 2) {
        if i >= 4 {
          assert r[i] == t[i - 4];
        } else {
          assert r[i] == h[i];
        }
      }
    }
  }

  /** Four alphabet characters without padding become three octets. */
  function DecodeBlock(s: string): Option<seq<byte>>
    requires |s| == 4
  {
    match (IndexOf(s[0]), IndexOf(s[1]), IndexOf(s[2]), IndexOf(s[3]))
    case (Some(a), Some(b), Some(c), Some(d)) =>
      Some([a * 4 + b / 16, (b % 16) * 16 + c / 4, (c % 4) * 64 + d])
    case _ => None
  }

  /** The last group of four characters, which may end in one or two pad characters. */
  function DecodeLast(s: string): Option<seq<byte>>
    requires |s| == 4
  {
    if s[2] == '=' && s[3] == '=' then
      match (IndexOf(s[0]), IndexOf(s[1]))
      case (Some(a), Some(b)) => if b % 16 == 0 then Some([a * 4 + b / 16]) else None
      case _ => None
    else if s[3] == '=' then
      match (IndexOf(s[0]), IndexOf(s[1]), IndexOf(s[2]))
      case (Some(a), Some(b), Some(c)) =>
        if c % 4 == 0 then Some([a * 4 + b / 16, (b % 16) * 16 + c / 4]) else None
      case _ => None
    else DecodeBlock(s)
  }

  /** The decoder of section 4 of RFC 4648 that rejects non-canonical trailing bits. */
  function Decode(s: string): Option<seq<byte>>
    decreases |s|
  {
    if |s| == 0 then Some([])
    else if |s| < 4 then None
    else if |s| == 4 then DecodeLast(s)
    else
      match DecodeBlock(s[..4])
      case None => None
      case Some(h) =>
        match Decode(s[4..])
        case None => None
        case Some(t) => Some(h + t)
  }

  /** Three octets cut into four 6-bit groups reassemble to the same octets. */
  lemma RegroupOctets(b0: byte, b1: byte, b2: byte)
    ensures var b, c := (b0 % 4) * 16 + b1 / 16, (b1 % 16) * 4 + b2 / 64;
      0 <= b < 64 && 0 <= c < 64 &&
      (b0 / 4) * 4 + b / 16 == b0 && (b % 16) * 16 + c / 4 == b1 && (c % 4) * 64 + b2 % 64 == b2
  {
    var b, c := (b0 % 4) * 16 + b1 / 16, (b1 % 16) * 4 + b2 / 64;
    assert b / 16 == b0 % 4 && b % 16 == b1 / 16;
    assert c / 4 == b1 % 16 && c % 4 == b2 / 64;
  }

  lemma BlockRoundTrip(b0: byte, b1: byte, b2: byte)
    ensures DecodeBlock(EncodeBlock(b0, b1, b2)) == Some([b0, b1, b2])
  {
    var a, b, c, d := b0 / 4, (b0 % 4) * 16 + b1 / 16, (b1 % 16) * 4 + b2 / 64, b2 % 64;
    RegroupOctets(b0, b1, b2);
    IndexOfCharOf(a);
    IndexOfCharOf(b);
    IndexOfCharOf(c);
    IndexOfCharOf(d);
    var s := EncodeBlock(b0, b1, b2);
    assert IndexOf(s[0]) == Some(a) && IndexOf(s[1]) == Some(b);
    assert IndexOf(s[2]) == Some(c) && IndexOf(s[3]) == Some(d);
  }

  /** One or two final octets cut into 6-bit groups reassemble to the same octets. */
  lemma RegroupTail(b0: byte, b1: byte)
    ensures var b, c := (b0 % 4) * 16 + b1 / 16, (b1 % 16) * 4;
      0 <= b < 64 && 0 <= c < 64 && c % 4 == 0 && ((b0 % 4) * 16) % 16 == 0 &&
      (b0 / 4) * 4 + ((b0 % 4) * 16) / 16 == b0 &&
      (b0 / 4) * 4 + b / 16 == b0 && (b % 16) * 16 + c / 4 == b1
  {
    var b, c := (b0 % 4) * 16 + b1 / 16, (b1 % 16) * 4;
    assert b / 16 == b0 % 4 && b % 16 == b1 / 16;
  }

  lemma TailRoundTrip(b0: byte, b1: byte)
    ensures DecodeLast(EncodeOne(b0)) == Some([b0])
    ensures DecodeLast(EncodeTwo(b0, b1)) == Some([b0, b1])
  {
    RegroupTail(b0, b1);
    OneRoundTrip(b0);
    TwoRoundTrip(b0, b1);
  }

  lemma OneRoundTrip(b0: byte)
    requires (b0 / 4) * 4 + ((b0 % 4) * 16) / 16 == b0 && ((b0 % 4) * 16) % 16 == 0
    ensures DecodeLast(EncodeOne(b0)) == Some([b0])
  {
    var a, b := b0 / 4, (b0 % 4) * 16;
    IndexOfCharOf(a);
    IndexOfCharOf(b);
    var s := EncodeOne(b0);
    assert IndexOf(s[0]) == Some(a) && IndexOf(s[1]) == Some(b);
  }

  lemma TwoRoundTrip(b0: byte, b1: byte)
    requires var b, c := (b0 % 4) * 16 + b1 / 16, (b1 % 16) * 4;
      0 <= b < 64 && 0 <= c < 64 && c % 4 == 0 &&
      (b0 / 4) * 4 + b / 16 == b0 && (b % 16) * 16 + c / 4 == b1
    ensures DecodeLast(EncodeTwo(b0, b1)) == Some([b0, b1])
  {
    var a, b, c := b0 / 4, (b0 % 4) * 16 + b1 / 16, (b1 % 16) * 4;
    IndexOfCharOf(a);
    IndexOfCharOf(b);
    IndexOfCharOf(c);
    var s := EncodeTwo(b0, b1);
    assert IndexOf(s[0]) == Some(a) && IndexOf(s[1]) == Some(b) && IndexOf(s[2]) == Some(c);
    assert IndexOf('=').None?;
  }

  /** The last group: one, two or three octets encode to a single group of four that decodes back. */
  lemma DecodeEncodeLast(bs: seq<byte>)
    requires 1 <= |bs| <= 3
    ensures Decode(Encode(bs)) == Some(bs)
  {
    if |bs| == 1 {
      DecodeEncodeOne(bs);
    } else if |bs| == 2 {
      DecodeEncodeTwo(bs);
    } else {
      DecodeEncodeThree(bs);
    }
  }

  lemma DecodeEncodeOne(bs: seq<byte>)
    requires |bs| == 1
    ensures Decode(Encode(bs)) == Some(bs)
  {
    var s := EncodeOne(bs[0]);
    assert Encode(bs) == s;
    TailRoundTrip(bs[0], 0);
    assert Decode(s) == DecodeLast(s) == Some([bs[0]]);
    assert bs == [bs[0]];
  }

  lemma DecodeEncodeTwo(bs: seq<byte>)
    requires |bs| == 2
    ensures Decode(Encode(bs)) == Some(bs)
  {
    var s := EncodeTwo(bs[0], bs[1]);
    assert Encode(bs) == s;
    TailRoundTrip(bs[0], bs[1]);
    assert Decode(s) == DecodeLast(s) == Some([bs[0], bs[1]]);
    assert bs == [bs[0], bs[1]];
  }

  lemma DecodeEncodeThree(bs: seq<byte>)
    requires |bs| == 3
    ensures Decode(Encode(bs)) == Some(bs)
  {
    var s := EncodeBlock(bs[0], bs[1], bs[2]);
    assert Encode(bs[3..]) == "";
    assert Encode(bs) == s + "" == s;
    BlockRoundTrip(bs[0], bs[1], bs[2]);
    UnpaddedLast(s);
    assert bs == [bs[0], bs[1], bs[2]];
  }

  /** A last group that is a valid unpadded group decodes as one. */
  lemma UnpaddedLast(s: string)
    requires |s| == 4 && DecodeBlock(s).Some?
    ensures DecodeLast(s) == DecodeBlock(s)
  {
    assert IndexOf(s[2]).Some? && IndexOf(s[3]).Some?;
    assert IndexOf('=').None?;
  }

  /** A full group in front of a non-empty rest decodes as the group followed by the rest. */
  lemma DecodeFrontBlock(h: string, t: string)
    requires |h| == 4 && |t| > 0 && DecodeBlock(h).Some?
    ensures Decode(h + t) ==
      match Decode(t) case None => None case Some(rest) => Some(DecodeBlock(h).value + rest)
  {
    assert (h + t)[..4] == h && (h + t)[4..] == t;
  }

  lemma EncodeNonEmpty(bs: seq<byte>)
    requires |bs| > 0
    ensures |Encode(bs)| >= 4
  {
    if |bs| > 2 {
      assert Encode(bs) == EncodeBlock(bs[0], bs[1], bs[2]) + Encode(bs[3..]);
    }
  }

  /** Decoding undoes encoding, for every octet string. */
  lemma {:induction false} DecodeEncode(bs: seq<byte>)
    ensures Decode(Encode(bs)) == Some(bs)
    decreases |bs|
  {
    if 1 <= |bs| <= 3 {
      DecodeEncodeLast(bs);
    } else if |bs| > 3 {
      DecodeEncode(bs[3..]);
      DecodeEncodeFront(bs);
    }
  }

  /** A full group in front: if the rest round-trips, so does the whole. */
  lemma DecodeEncodeFront(bs: seq<byte>)
    requires |bs| > 3 && Decode(Encode(bs[3..])) == Some(bs[3..])
    ensures Decode(Encode(bs)) == Some(bs)
  {
    var h, t := EncodeBlock(bs[0], bs[1], bs[2]), Encode(bs[3..]);
    BlockRoundTrip(bs[0], bs[1], bs[2]);
    EncodeNonEmpty(bs[3..]);
    assert Encode(bs) == h + t;
    DecodeFrontBlock(h, t);
    SplitThree(bs);
  }

  lemma SplitThree(bs: seq<byte>)
    requires |bs| >= 3
    ensures [bs[0], bs[1], bs[2]] + bs[3..] == bs
  {
  }

  /** Regrouping four 6-bit values into three octets and back. */
  lemma SixBitGroups(a: int, b: int, c: int, d: int)
    requires 0 <= a < 64 && 0 <= b < 64 && 0 <= c < 64 && 0 <= d < 64
    ensures var h0, h1, h2 := a * 4 + b / 16, (b % 16) * 16 + c / 4, (c % 4) * 64 + d;
      && 0 <= h0 < 256 && 0 <= h1 < 256 && 0 <= h2 < 256
      && h0 / 4 == a && (h0 % 4) * 16 + h1 / 16 == b
      && (h1 % 16) * 4 + h2 / 64 == c && h2 % 64 == d
  {
  }

  lemma BlockCanonical(s: string)
    requires |s| == 4 && DecodeBlock(s).Some?
    ensures |DecodeBlock(s).value| == 3
    ensures EncodeBlock(DecodeBlock(s).value[0], DecodeBlock(s).value[1], DecodeBlock(s).value[2]) == s
  {
    var a, b, c, d := IndexOf(s[0]).value, IndexOf(s[1]).value, IndexOf(s[2]).value, IndexOf(s[3]).value;
    SixBitGroups(a, b, c, d);
    var h0: byte, h1: byte, h2: byte := a * 4 + b / 16, (b % 16) * 16 + c / 4, (c % 4) * 64 + d;
    assert DecodeBlock(s).value == [h0, h1, h2];
    EncodeBlockOf(h0, h1, h2, a, b, c, d);
    assert s == [s[0], s[1], s[2], s[3]];
  }

  lemma EncodeBlockOf(h0: byte, h1: byte, h2: byte, a: int, b: int, c: int, d: int)
    requires 0 <= a < 64 && 0 <= b < 64 && 0 <= c < 64 && 0 <= d < 64
    requires h0 / 4 == a && (h0 % 4) * 16 + h1 / 16 == b && (h1 % 16) * 4 + h2 / 64 == c && h2 % 64 == d
    ensures EncodeBlock(h0, h1, h2) == [CharOf(a), CharOf(b), CharOf(c), CharOf(d)]
  {
  }

  lemma LastCanonical(s: string)
    requires |s| == 4 && DecodeLast(s).Some?
    ensures 1 <= |DecodeLast(s).value| <= 3
    ensures Encode(DecodeLast(s).value) == s
  {
    if s[2] == '=' && s[3] == '=' {
      OnePadCanonical(s);
    } else if s[3] == '=' {
      TwoPadCanonical(s);
    } else {
      var v := DecodeLast(s).value;
      BlockCanonical(s);
      assert v == [v[0], v[1], v[2]];
      assert v[3..] == [];
    }
  }

  /** A group ending in two pad characters is the encoding of the one octet it decodes to. */
  lemma OnePadCanonical(s: string)
    requires |s| == 4 && DecodeLast(s).Some? && s[2] == '=' && s[3] == '='
    ensures |DecodeLast(s).value| == 1
    ensures Encode(DecodeLast(s).value) == s
  {
    var a, b := IndexOf(s[0]).value, IndexOf(s[1]).value;
    var h0 := a * 4 + b / 16;
    assert h0 / 4 == a && (h0 % 4) * 16 == b;
    assert DecodeLast(s).value == [h0];
    assert EncodeOne(h0) == s;
  }

  /** A group ending in one pad character is the encoding of the two octets it decodes to. */
  lemma TwoPadCanonical(s: string)
    requires |s| == 4 && DecodeLast(s).Some? && s[3] == '=' && s[2] != '='
    ensures |DecodeLast(s).value| == 2
    ensures Encode(DecodeLast(s).value) == s
  {
    var a, b, c := IndexOf(s[0]).value, IndexOf(s[1]).value, IndexOf(s[2]).value;
    var h0, h1 := a * 4 + b / 16, (b % 16) * 16 + c / 4;
    assert h0 / 4 == a && h0 % 4 == b / 16;
    assert h1 / 16 == b % 16 && (h1 % 16) * 4 == c;
    assert DecodeLast(s).value == [h0, h1];
    assert EncodeTwo(h0, h1) == s;
  }

  /**
   * Encoding undoes decoding: the decoder accepts only the canonical
   * encoding of the octets it returns.
   */
  lemma {:induction false} EncodeDecode(s: string)
    requires Decode(s).Some?
    ensures Encode(Decode(s).value) == s
    decreases |s|
  {
    if |s| == 4 {
      LastCanonical(s);
    } else if |s| > 4 {
      var h := DecodeBlock(s[..4]).value;
      var t := Decode(s[4..]).value;
      BlockCanonical(s[..4]);
      EncodeDecode(s[4..]);
      assert |s[4..]| >= 4;
      assert |t| >= 1 by {
        if |s[4..]| == 4 {
          LastCanonical(s[4..]);
        } else {
          BlockCanonical(s[4..][..4]);
        }
      }
      var v := h + t;
      assert v[..3] == h && v[3..] == t;
      assert s == s[..4] + s[4..];
    }
  }
}
