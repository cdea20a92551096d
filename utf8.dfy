/**
 * UTF-8 encoding of a string (Rust's `str::as_bytes`), per RFC 3629.
 * Dafny characters are Unicode scalar values, so every string has an encoding.
 */
module Utf8 {
  import opened Common

  function EncodeChar(c: char): (r: seq<byte>)
    ensures 1 <= |r| <= 4
    ensures (c as int < 0x80) <==> |r| == 1
    ensures |r| == 1 ==> r[0] == c as int
  {
    var cp := c as int;
    if cp < 0x80 then [cp]
    else if cp < 0x800 then [0xC0 + cp / 64, 0x80 + cp % 64]
    else if cp < 0x1_0000 then [0xE0 + cp / 4096, 0x80 + (cp / 64) % 64, 0x80 + cp % 64]
    else [0xF0 + cp / 262144, 0x80 + (cp / 4096) % 64, 0x80 + (cp / 64) % 64, 0x80 + cp % 64]
  }

  function Encode(s: string): (r: seq<byte>)
    ensures |s| <= |r| <= 4 * |s|
    decreases |s|
  {
    if |s| == 0 then [] else EncodeChar(s[0]) + Encode(s[1..])
  }

  predicate IsAscii(s: string)
  {
    forall i | 0 <= i < |s| :: s[i] as int < 0x80
  }

  /** Encoding distributes over concatenation, so "user:password" encodes piece by piece. */
  lemma {:induction false} EncodeConcat(a: string, b: string)
    ensures Encode(a + b) == Encode(a) + Encode(b)
    decreases |a|
  {
    if |a| == 0 {
      assert a + b == b;
    } else {
      assert (a + b)[0] == a[0] && (a + b)[1..] == a[1..] + b;
      EncodeConcat(a[1..], b);
      AppendAssoc(EncodeChar(a[0]), Encode(a[1..]), Encode(b));
    }
  }

  /** An ASCII string encodes to its code points, one octet each, and only an ASCII string does. */
  lemma {:induction false} EncodeAscii(s: string)
    ensures IsAscii(s) <==> |Encode(s)| == |s|
    ensures IsAscii(s) ==> forall i | 0 <= i < |s| :: Encode(s)[i] == s[i] as int
    decreases |s|
  {
    if |s| > 0 {
      EncodeAscii(s[1..]);
      assert IsAscii(s) <==> s[0] as int < 0x80 && IsAscii(s[1..]) by {
        if IsAscii(s) {
          forall i | 0 <= i < |s[1..]| ensures s[1..][i] as int < 0x80 {
            assert s[1..][i] == s[i + 1];
          }
        }
        if s[0] as int < 0x80 && IsAscii(s[1..]) {
          forall i | 0 <= i < |s| ensures s[i] as int < 0x80 {
            if i > 0 {
              assert s[i] == s[1..][i - 1];
            }
          }
        }
      }
      if IsAscii(s) {
        forall i | 0 <= i < |s| ensures Encode(s)[i] == s[i] as int {
          if i > 0 {
            assert Encode(s)[i] == Encode(s[1..])[i - 1];
            assert s[1..][i - 1] == s[i];
          }
        }
      }
    }
  }

  /** A continuation octet, 10xxxxxx. */
  predicate IsContinuation(b: byte)
  {
    0x80 <= b < 0xC0
  }

  /**
   * The character at the front of `bs` and how many octets it takes, or None
   * for a malformed, overlong or surrogate sequence.
   */
  function DecodeChar(bs: seq<byte>): (r: Option<(char, nat)>)
    requires |bs| > 0
    ensures r.Some? ==> 1 <= r.value.1 <= |bs|
  {
    var b0: int := bs[0];
    if b0 < 0x80 then Some((b0 as char, 1))
    else if 0xC2 <= b0 < 0xE0 then
      if |bs| >= 2 && IsContinuation(bs[1]) then
        Some((((b0 - 0xC0) * 64 + (bs[1] as int - 0x80)) as char, 2))
      else None
    else if 0xE0 <= b0 < 0xF0 then
      if |bs| >= 3 && IsContinuation(bs[1]) && IsContinuation(bs[2]) then
        var cp := (b0 - 0xE0) * 4096 + (bs[1] as int - 0x80) * 64 + (bs[2] as int - 0x80);
        if 0x800 <= cp && !(0xD800 <= cp < 0xE000) then Some((cp as char, 3)) else None
      else None
    else if 0xF0 <= b0 < 0xF5 then
      if |bs| >= 4 && IsContinuation(bs[1]) && IsContinuation(bs[2]) && IsContinuation(bs[3]) then
        var cp := (b0 - 0xF0) * 262144 + (bs[1] as int - 0x80) * 4096 + (bs[2] as int - 0x80) * 64 + (bs[3] as int - 0x80);
        if 0x1_0000 <= cp < 0x11_0000 then Some((cp as char, 4)) else None
      else None
    else None
  }

  /** The string `bs` encodes, or None when `bs` is not well-formed UTF-8. */
  function Decode(bs: seq<byte>): Option<string>
    decreases |bs|
  {
    if |bs| == 0 then Some("")
    else
      match DecodeChar(bs)
      case None => None
      case Some((c, n)) =>
        match Decode(bs[n..])
        case None => None
        case Some(t) => Some([c] + t)
  }

  lemma DecodeCharEncode(c: char, rest: seq<byte>)
    ensures DecodeChar(EncodeChar(c) + rest) == Some((c, |EncodeChar(c)|))
  {
    var cp := c as int;
    if cp < 0x80 {
    } else if cp < 0x800 {
      DecodeTwo(c, rest);
    } else if cp < 0x1_0000 {
      DecodeThree(c, rest);
    } else {
      DecodeFour(c, rest);
    }
  }

  lemma DecodeTwo(c: char, rest: seq<byte>)
    requires 0x80 <= c as int < 0x800
    ensures DecodeChar(EncodeChar(c) + rest) == Some((c, 2))
  {
    var cp := c as int;
    var bs := EncodeChar(c) + rest;
    assert bs[0] == 0xC0 + cp / 64 && bs[1] == 0x80 + cp % 64;
    assert (cp / 64) * 64 + cp % 64 == cp;
  }

  lemma DecodeThree(c: char, rest: seq<byte>)
    requires 0x800 <= c as int < 0x1_0000
    ensures DecodeChar(EncodeChar(c) + rest) == Some((c, 3))
  {
    var cp := c as int;
    var bs := EncodeChar(c) + rest;
    var x, y, z := cp / 4096, (cp / 64) % 64, cp % 64;
    assert bs[0] == 0xE0 + x && bs[1] == 0x80 + y && bs[2] == 0x80 + z;
    assert cp / 64 == x * 64 + y;
    assert x * 4096 + y * 64 + z == cp;
  }

  lemma DecodeFour(c: char, rest: seq<byte>)
    requires 0x1_0000 <= c as int
    ensures DecodeChar(EncodeChar(c) + rest) == Some((c, 4))
  {
    var cp := c as int;
    var bs := EncodeChar(c) + rest;
    var w, x, y, z := cp / 262144, (cp / 4096) % 64, (cp / 64) % 64, cp % 64;
    assert bs[0] == 0xF0 + w && bs[1] == 0x80 + x && bs[2] == 0x80 + y && bs[3] == 0x80 + z;
    assert cp / 4096 == w * 64 + x;
    assert cp / 64 == (cp / 4096) * 64 + y;
    assert w * 262144 + x * 4096 + y * 64 + z == cp;
  }

  /** Decoding undoes encoding, for every string. */
  lemma {:induction false} DecodeEncode(s: string)
    ensures Decode(Encode(s)) == Some(s)
    decreases |s|
  {
    if |s| > 0 {
      var e, t := EncodeChar(s[0]), Encode(s[1..]);
      DecodeCharEncode(s[0], t);
      assert (e + t)[|e|..] == t;
      DecodeEncode(s[1..]);
      assert [s[0]] + s[1..] == s;
    }
  }

  /** A decodable octet string is the encoding of what it decodes to. */
  lemma {:induction false} EncodeDecode(bs: seq<byte>)
    requires Decode(bs).Some?
    ensures Encode(Decode(bs).value) == bs
    decreases |bs|
  {
    if |bs| > 0 {
      var (c, n) := DecodeChar(bs).value;
      EncodeDecode(bs[n..]);
      EncodeCharDecode(bs);
      assert bs == bs[..n] + bs[n..];
      assert Decode(bs).value == [c] + Decode(bs[n..]).value;
      assert ([c] + Decode(bs[n..]).value)[1..] == Decode(bs[n..]).value;
    }
  }

  lemma EncodeCharDecode(bs: seq<byte>)
    requires |bs| > 0 && DecodeChar(bs).Some?
    ensures EncodeChar(DecodeChar(bs).value.0) == bs[..DecodeChar(bs).value.1]
  {
    var b0: int := bs[0];
    if b0 < 0x80 {
    } else if b0 < 0xE0 {
      EncodeTwoDecoded(bs);
    } else if b0 < 0xF0 {
      EncodeThreeDecoded(bs);
    } else {
      EncodeFourDecoded(bs);
    }
  }

  lemma EncodeTwoDecoded(bs: seq<byte>)
    requires |bs| > 0 && DecodeChar(bs).Some? && 0x80 <= bs[0] < 0xE0
    ensures EncodeChar(DecodeChar(bs).value.0) == bs[..2]
  {
    var b0: int, b1: int := bs[0], bs[1];
    var cp := (b0 - 0xC0) * 64 + (b1 - 0x80);
    assert DecodeChar(bs).value.0 as int == cp;
    assert cp / 64 == b0 - 0xC0 && cp % 64 == b1 - 0x80;
    assert EncodeChar(cp as char) == [b0, b1];
  }

  lemma EncodeThreeDecoded(bs: seq<byte>)
    requires |bs| > 0 && DecodeChar(bs).Some? && 0xE0 <= bs[0] < 0xF0
    ensures EncodeChar(DecodeChar(bs).value.0) == bs[..3]
  {
    var b0: int, b1: int, b2: int := bs[0], bs[1], bs[2];
    var cp := (b0 - 0xE0) * 4096 + (b1 - 0x80) * 64 + (b2 - 0x80);
    assert DecodeChar(bs).value.0 as int == cp;
    assert cp / 4096 == b0 - 0xE0 && cp / 64 == (b0 - 0xE0) * 64 + (b1 - 0x80);
    assert (cp / 64) % 64 == b1 - 0x80 && cp % 64 == b2 - 0x80;
    assert EncodeChar(cp as char) == [b0, b1, b2];
  }

  lemma EncodeFourDecoded(bs: seq<byte>)
    requires |bs| > 0 && DecodeChar(bs).Some? && 0xF0 <= bs[0]
    ensures EncodeChar(DecodeChar(bs).value.0) == bs[..4]
  {
    var b0: int, b1: int, b2: int, b3: int := bs[0], bs[1], bs[2], bs[3];
    var cp := (b0 - 0xF0) * 262144 + (b1 - 0x80) * 4096 + (b2 - 0x80) * 64 + (b3 - 0x80);
    assert DecodeChar(bs).value.0 as int == cp;
    assert cp / 262144 == b0 - 0xF0;
    assert cp / 4096 == (b0 - 0xF0) * 64 + (b1 - 0x80);
    assert cp / 64 == ((b0 - 0xF0) * 64 + (b1 - 0x80)) * 64 + (b2 - 0x80);
    assert (cp / 4096) % 64 == b1 - 0x80 && (cp / 64) % 64 == b2 - 0x80 && cp % 64 == b3 - 0x80;
    assert EncodeChar(cp as char) == [b0, b1, b2, b3];
  }
}
