/** Base32 without padding (section 6 of RFC 4648): blocks of five octets as eight digits, and a short tail. */
module Base32 {
  import opened Bytes
  import opened Names

  type digit = d: int | 0 <= d < 32

  /** The digit's letter: A to Z, then 2 to 7. */
  function Letter(d: digit): byte {
    if d < 26 then 65 + d else 24 + d
  }

  function DigitOf(c: byte): Option<digit> {
    if 65 <= c <= 90 then Some(c - 65)
    else if 50 <= c <= 55 then Some(c - 24)
    else None
  }

  function Letters(ds: seq<digit>): (r: bytes)
    ensures |r| == |ds|
  {
    seq(|ds|, i requires 0 <= i < |ds| => Letter(ds[i]))
  }

  /** The digits of a text, if every character is in the alphabet. */
  function Digits(s: bytes): (r: Option<seq<digit>>)
    ensures r.Some? ==> |r.value| == |s|
  {
    if forall i :: 0 <= i < |s| ==> DigitOf(s[i]).Some?
    then Some(seq(|s|, i requires 0 <= i < |s| => DigitOf(s[i]).value))
    else None
  }

  // The digits that straddle two octets, and the octets put back together from their digits.
  function Straddle1(b0: byte, b1: byte): digit { var h: int := b0 % 8; h * 4 + b1 / 64 }
  function Straddle3(b1: byte, b2: byte): digit { var h: int := b1 % 2; h * 16 + b2 / 16 }
  function Straddle4(b2: byte, b3: byte): digit { var h: int := b2 % 16; h * 2 + b3 / 128 }
  function Straddle6(b3: byte, b4: byte): digit { var h: int := b3 % 4; h * 8 + b4 / 32 }

  function Octet0(d0: digit, d1: digit): byte { var h: int := d0; h * 8 + d1 / 4 }
  function Octet1(d1: digit, d2: digit, d3: digit): byte { var h: int, m: int := d1 % 4, d2; h * 64 + m * 2 + d3 / 16 }
  function Octet2(d3: digit, d4: digit): byte { var h: int := d3 % 16; h * 16 + d4 / 2 }
  function Octet3(d4: digit, d5: digit, d6: digit): byte { var h: int, m: int := d4 % 2, d5; h * 128 + m * 4 + d6 / 8 }
  function Octet4(d6: digit, d7: digit): byte { var h: int := d6 % 8; h * 32 + d7 }

  /** Eight digits for every five octets, rounded up. */
  function EncodedLen(n: nat): nat {
    (8 * n + 4) / 5
  }

  /** Up to five octets as digits; bits missing after the last octet count as zero. */
  function EncodeShort(x: bytes): (r: seq<digit>)
    requires |x| <= 5
    ensures |r| == EncodedLen(|x|)
  {
    if |x| == 0 then []
    else if |x| == 1 then [x[0] / 8, Straddle1(x[0], 0)]
    else if |x| == 2 then [x[0] / 8, Straddle1(x[0], x[1]), x[1] / 2 % 32, Straddle3(x[1], 0)]
    else if |x| == 3 then
      [x[0] / 8, Straddle1(x[0], x[1]), x[1] / 2 % 32, Straddle3(x[1], x[2]), Straddle4(x[2], 0)]
    else if |x| == 4 then
      [x[0] / 8, Straddle1(x[0], x[1]), x[1] / 2 % 32, Straddle3(x[1], x[2]), Straddle4(x[2], x[3]), x[3] / 4 % 32,
       Straddle6(x[3], 0)]
    else
      [x[0] / 8, Straddle1(x[0], x[1]), x[1] / 2 % 32, Straddle3(x[1], x[2]), Straddle4(x[2], x[3]), x[3] / 4 % 32,
       Straddle6(x[3], x[4]), x[4] % 32]
  }

  /** The whole octets among up to eight digits; a tail of 1, 3 or 6 digits, which no encoder produces, yields none. */
  function DecodeShort(d: seq<digit>): bytes
    requires |d| <= 8
  {
    if |d| == 2 then [Octet0(d[0], d[1])]
    else if |d| == 4 then [Octet0(d[0], d[1]), Octet1(d[1], d[2], d[3])]
    else if |d| == 5 then [Octet0(d[0], d[1]), Octet1(d[1], d[2], d[3]), Octet2(d[3], d[4])]
    else if |d| == 7 then
      [Octet0(d[0], d[1]), Octet1(d[1], d[2], d[3]), Octet2(d[3], d[4]), Octet3(d[4], d[5], d[6])]
    else if |d| == 8 then
      [Octet0(d[0], d[1]), Octet1(d[1], d[2], d[3]), Octet2(d[3], d[4]), Octet3(d[4], d[5], d[6]), Octet4(d[6], d[7])]
    else []
  }

  function EncodeDigits(x: bytes): seq<digit> {
    if |x| <= 5 then EncodeShort(x) else EncodeShort(x[..5]) + EncodeDigits(x[5..])
  }

  function DecodeDigits(ds: seq<digit>): bytes {
    if |ds| <= 8 then DecodeShort(ds) else DecodeShort(ds[..8]) + DecodeDigits(ds[8..])
  }

  function Encode(x: bytes): bytes {
    Letters(EncodeDigits(x))
  }

  /** The decoder ignores CR and LF. */
  function StripNewlines(s: bytes): bytes {
    if s == [] then [] else (if s[0] == 13 || s[0] == 10 then [] else [s[0]]) + StripNewlines(s[1..])
  }

  function Decode(s: bytes): Option<bytes> {
    var ds := Digits(StripNewlines(s));
    if ds.Some? then Some(DecodeDigits(ds.value)) else None
  }

  lemma RoundTrip0(b0: byte, b1: byte)
    ensures Octet0(b0 / 8, Straddle1(b0, b1)) == b0
  {
  }

  lemma Straddle1Low(b0: byte, b1: byte)
    ensures Straddle1(b0, b1) % 4 == b1 / 64
  {
  }

  lemma Straddle3High(b1: byte, b2: byte)
    ensures Straddle3(b1, b2) / 16 == b1 % 2
  {
  }

  lemma BitsOf1(b1: byte)
    ensures b1 == b1 / 64 * 64 + b1 / 2 % 32 * 2 + b1 % 2
  {
  }

  lemma RoundTrip1(b0: byte, b1: byte, b2: byte)
    ensures Octet1(Straddle1(b0, b1), b1 / 2 % 32, Straddle3(b1, b2)) == b1
  {
    hide Straddle1, Straddle3;
    Straddle1Low(b0, b1);
    Straddle3High(b1, b2);
    BitsOf1(b1);
  }

  lemma RoundTrip2(b1: byte, b2: byte, b3: byte)
    ensures Octet2(Straddle3(b1, b2), Straddle4(b2, b3)) == b2
  {
    assert Straddle3(b1, b2) % 16 == b2 / 16;
    assert Straddle4(b2, b3) / 2 == b2 % 16;
  }

  lemma Straddle4Low(b2: byte, b3: byte)
    ensures Straddle4(b2, b3) % 2 == b3 / 128
  {
  }

  lemma Straddle6High(b3: byte, b4: byte)
    ensures Straddle6(b3, b4) / 8 == b3 % 4
  {
  }

  lemma BitsOf3(b3: byte)
    ensures b3 == b3 / 128 * 128 + b3 / 4 % 32 * 4 + b3 % 4
  {
  }

  lemma RoundTrip3(b2: byte, b3: byte, b4: byte)
    ensures Octet3(Straddle4(b2, b3), b3 / 4 % 32, Straddle6(b3, b4)) == b3
  {
    hide Straddle4, Straddle6;
    Straddle4Low(b2, b3);
    Straddle6High(b3, b4);
    BitsOf3(b3);
  }

  lemma RoundTrip4(b3: byte, b4: byte)
    ensures Octet4(Straddle6(b3, b4), b4 % 32) == b4
  {
    assert Straddle6(b3, b4) % 8 == b4 / 32;
  }

  lemma {:induction false} ShortRoundTrip(x: bytes)
    requires |x| <= 5
    ensures DecodeShort(EncodeShort(x)) == x
  {
    if |x| > 0 { RoundTrip0(x[0], if |x| > 1 then x[1] else 0); }
    if |x| > 1 { RoundTrip1(x[0], x[1], if |x| > 2 then x[2] else 0); }
    if |x| > 2 { RoundTrip2(x[1], x[2], if |x| > 3 then x[3] else 0); }
    if |x| > 3 { RoundTrip3(x[2], x[3], if |x| > 4 then x[4] else 0); }
    if |x| > 4 { RoundTrip4(x[3], x[4]); }
  }

  lemma {:induction false} DigitsRoundTrip(x: bytes)
    ensures DecodeDigits(EncodeDigits(x)) == x
  {
    ShortRoundTrip(if |x| <= 5 then x else x[..5]);
    if |x| > 5 {
      DigitsRoundTrip(x[5..]);
      var head, rest := EncodeShort(x[..5]), EncodeDigits(x[5..]);
      EncodedDigits(x[5..]);
      assert (head + rest)[..8] == head && (head + rest)[8..] == rest;
      assert x[..5] + x[5..] == x;
    }
  }

  lemma {:induction false} EncodedDigits(x: bytes)
    ensures |EncodeDigits(x)| == EncodedLen(|x|)
  {
    if |x| > 5 {
      EncodedDigits(x[5..]);
    }
  }

  lemma {:induction false} StrippedLen(s: bytes)
    ensures |StripNewlines(s)| <= |s|
  {
    if s != [] { StrippedLen(s[1..]); }
  }

  /** Eight octets take at least thirteen digits, and fourteen make only five, because a tail of six is dropped. */
  lemma {:induction false} EightOctets(ds: seq<digit>)
    ensures |DecodeDigits(ds)| >= 8 <==> |ds| >= 13 && |ds| != 14
  {
    if |ds| > 8 {
      var rest := ds[8..];
      assert |DecodeDigits(ds)| == 5 + |DecodeDigits(rest)|;
      if |rest| > 8 {
        assert |DecodeDigits(rest)| >= 5;
      } else {
        assert DecodeDigits(rest) == DecodeShort(rest);
      }
    }
  }

  lemma LettersRoundTrip(ds: seq<digit>)
    ensures Digits(Letters(ds)) == Some(ds)
  {
    var s := Letters(ds);
    forall i | 0 <= i < |s| ensures DigitOf(s[i]) == Some(ds[i]) {
      assert s[i] == Letter(ds[i]);
    }
    assert Digits(s).value == ds;
  }

  lemma {:induction false} NothingToStrip(s: bytes)
    requires forall i :: 0 <= i < |s| ==> s[i] != 13 && s[i] != 10
    ensures StripNewlines(s) == s
  {
    if s != [] {
      NothingToStrip(s[1..]);
      assert [s[0]] + s[1..] == s;
    }
  }

  lemma LettersUpper(ds: seq<digit>)
    ensures Upper(Lower(Letters(ds))) == Letters(ds)
  {
  }

  /** Decoding undoes encoding, also after the text was put in lower case and back. */
  lemma {:induction false} EncodeDecode(x: bytes)
    ensures |Encode(x)| == EncodedLen(|x|)
    ensures Decode(Encode(x)) == Some(x)
    ensures Upper(Lower(Encode(x))) == Encode(x)
  {
    EncodedDigits(x);
    NothingToStrip(Encode(x));
    LettersRoundTrip(EncodeDigits(x));
    LettersUpper(EncodeDigits(x));
    DigitsRoundTrip(x);
  }

  // ---------- What the digits mean ----------

  const ALPHABET := "ABCDEFGHIJKLMNOPQRSTUVWXYZ234567"

  /** The letters are those of section 6 of RFC 4648. */
  lemma AlphabetExactly(d: digit, c: byte)
    ensures Letter(d) == ALPHABET[d] as int
    ensures DigitOf(c) == Some(d) <==> c == ALPHABET[d] as int
  {
    assert ALPHABET[d] as int == if d < 26 then 65 + d else 24 + d;
  }

  /** Digits as one number, most significant first. */
  function Number(ds: seq<nat>, base: nat): nat {
    if ds == [] then 0 else Number(ds[..|ds| - 1], base) * base + ds[|ds| - 1]
  }

  /** How many zero bits the encoder appends to so many octets. */
  function Shift(octets: nat): nat {
    if octets == 1 then 4 else if octets == 2 then 16 else if octets == 3 then 2 else if octets == 4 then 8 else 1
  }

  lemma OctetNumber(x: seq<nat>)
    requires |x| <= 5
    ensures Number(x, 256) ==
      if |x| == 0 then 0
      else if |x| == 1 then x[0]
      else if |x| == 2 then 256 * x[0] + x[1]
      else if |x| == 3 then 65536 * x[0] + 256 * x[1] + x[2]
      else if |x| == 4 then 16777216 * x[0] + 65536 * x[1] + 256 * x[2] + x[3]
      else 4294967296 * x[0] + 16777216 * x[1] + 65536 * x[2] + 256 * x[3] + x[4]
  {
    if |x| > 0 { OctetNumber(x[..|x| - 1]); }
  }

  lemma DigitNumber(d: seq<nat>)
    requires |d| <= 8
    ensures Number(d, 32) ==
      if |d| == 0 then 0
      else if |d| == 1 then d[0]
      else if |d| == 2 then 32 * d[0] + d[1]
      else if |d| == 3 then 1024 * d[0] + 32 * d[1] + d[2]
      else if |d| == 4 then 32768 * d[0] + 1024 * d[1] + 32 * d[2] + d[3]
      else if |d| == 5 then 1048576 * d[0] + 32768 * d[1] + 1024 * d[2] + 32 * d[3] + d[4]
      else if |d| == 6 then 33554432 * d[0] + 1048576 * d[1] + 32768 * d[2] + 1024 * d[3] + 32 * d[4] + d[5]
      else if |d| == 7 then
        1073741824 * d[0] + 33554432 * d[1] + 1048576 * d[2] + 32768 * d[3] + 1024 * d[4] + 32 * d[5] + d[6]
      else
        34359738368 * d[0] + 1073741824 * d[1] + 33554432 * d[2] + 1048576 * d[3] + 32768 * d[4] + 1024 * d[5]
        + 32 * d[6] + d[7]
  {
    if |d| > 0 { DigitNumber(d[..|d| - 1]); }
  }

  /** The octets cut at the borders of digits: h, q and r are the parts next to those borders. */
  lemma Octets(b0: byte, b1: byte, b2: byte, b3: byte, b4: byte)
    ensures b0 == b0 / 8 * 8 + b0 % 8
    ensures b1 == b1 / 64 * 64 + b1 / 2 % 32 * 2 + b1 % 2
    ensures b2 == b2 / 16 * 16 + b2 % 16
    ensures b3 == b3 / 128 * 128 + b3 / 4 % 32 * 4 + b3 % 4
    ensures b4 == b4 / 32 * 32 + b4 % 32
  {
    BitsOf1(b1);
    BitsOf3(b3);
  }

  lemma Straddles(b0: byte, b1: byte, b2: byte, b3: byte, b4: byte)
    ensures Straddle1(b0, b1) == 4 * (b0 % 8) + b1 / 64
    ensures Straddle3(b1, b2) == 16 * (b1 % 2) + b2 / 16
    ensures Straddle4(b2, b3) == 2 * (b2 % 16) + b3 / 128
    ensures Straddle6(b3, b4) == 8 * (b3 % 4) + b4 / 32
  {
  }

  lemma Regroup(d0: int, h0: int, q1: int, d2: int, r1: int, q2: int, r2: int, q3: int, d5: int, r3: int, q4: int,
                d7: int)
    ensures 34359738368 * d0 + 1073741824 * (4 * h0 + q1) + 33554432 * d2 + 1048576 * (16 * r1 + q2)
            + 32768 * (2 * r2 + q3) + 1024 * d5 + 32 * (8 * r3 + q4) + d7
         == 4294967296 * (8 * d0 + h0) + 16777216 * (64 * q1 + 2 * d2 + r1) + 65536 * (16 * q2 + r2)
            + 256 * (128 * q3 + 4 * d5 + r3) + (32 * q4 + d7)
  {
  }

  lemma BlockNumber(b0: byte, b1: byte, b2: byte, b3: byte, b4: byte)
    ensures 34359738368 * (b0 / 8) + 1073741824 * Straddle1(b0, b1) + 33554432 * (b1 / 2 % 32)
            + 1048576 * Straddle3(b1, b2) + 32768 * Straddle4(b2, b3) + 1024 * (b3 / 4 % 32)
            + 32 * Straddle6(b3, b4) + b4 % 32
         == 4294967296 * b0 + 16777216 * b1 + 65536 * b2 + 256 * b3 + b4
  {
    hide Straddle1, Straddle3, Straddle4, Straddle6;
    Octets(b0, b1, b2, b3, b4);
    Straddles(b0, b1, b2, b3, b4);
    Regroup(b0 / 8, b0 % 8, b1 / 64, b1 / 2 % 32, b1 % 2, b2 / 16, b2 % 16, b3 / 128, b3 / 4 % 32, b3 % 4,
            b4 / 32, b4 % 32);
  }

  lemma NoBits()
    ensures Straddle1(0, 0) == 0 && Straddle3(0, 0) == 0 && Straddle4(0, 0) == 0 && Straddle6(0, 0) == 0
  {
    hide Straddle1, Straddle3, Straddle4, Straddle6;
    Straddles(0, 0, 0, 0, 0);
  }

  lemma FullNumber(x: bytes)
    requires |x| == 5
    ensures Number(EncodeShort(x), 32) == Number(x, 256)
  {
    hide Straddle1, Straddle3, Straddle4, Straddle6, Number;
    OctetNumber(x);
    DigitNumber(EncodeShort(x));
    BlockNumber(x[0], x[1], x[2], x[3], x[4]);
  }

  lemma LongNumber(x: bytes)
    requires |x| == 3 || |x| == 4
    ensures Number(EncodeShort(x), 32) == Number(x, 256) * if |x| == 3 then 2 else 8
  {
    hide Straddle1, Straddle3, Straddle4, Straddle6, Number;
    NoBits();
    OctetNumber(x);
    DigitNumber(EncodeShort(x));
    BlockNumber(x[0], x[1], x[2], if |x| == 4 then x[3] else 0, 0);
  }

  lemma ShortNumber(x: bytes)
    requires |x| == 1 || |x| == 2
    ensures Number(EncodeShort(x), 32) == Number(x, 256) * if |x| == 1 then 4 else 16
  {
    hide Straddle1, Straddle3, Straddle4, Straddle6, Number;
    NoBits();
    OctetNumber(x);
    DigitNumber(EncodeShort(x));
    BlockNumber(x[0], if |x| == 2 then x[1] else 0, 0, 0, 0);
  }

  /** Up to five octets and their digits are the same number, but for the zero bits at the end. */
  lemma EncodedNumber(x: bytes)
    requires |x| <= 5
    ensures Number(EncodeShort(x), 32) == Number(x, 256) * Shift(|x|)
  {
    hide EncodeShort;
    if |x| == 5 {
      FullNumber(x);
    } else if |x| >= 3 {
      LongNumber(x);
    } else if |x| >= 1 {
      ShortNumber(x);
    } else {
      assert EncodeShort(x) == [];
      assert x == [];
    }
  }

  lemma Digits8(d0: int, d1: int, d2: int, d3: int, d4: int, d5: int, d6: int, d7: int, a1: int, c1: int,
                a3: int, c3: int, a4: int, c4: int, a6: int, c6: int)
    requires d1 == 4 * a1 + c1 && d3 == 16 * a3 + c3 && d4 == 2 * a4 + c4 && d6 == 8 * a6 + c6
    ensures 4294967296 * (8 * d0 + a1) + 16777216 * (64 * c1 + 2 * d2 + a3) + 65536 * (16 * c3 + a4)
            + 256 * (128 * c4 + 4 * d5 + a6) + (32 * c6 + d7)
         == 34359738368 * d0 + 1073741824 * d1 + 33554432 * d2 + 1048576 * d3 + 32768 * d4 + 1024 * d5 + 32 * d6 + d7
  {
  }

  lemma OctetsOf(d0: digit, d1: digit, d2: digit, d3: digit, d4: digit, d5: digit, d6: digit, d7: digit)
    ensures Octet0(d0, d1) == 8 * d0 + d1 / 4
    ensures Octet1(d1, d2, d3) == 64 * (d1 % 4) + 2 * d2 + d3 / 16
    ensures Octet2(d3, d4) == 16 * (d3 % 16) + d4 / 2
    ensures Octet3(d4, d5, d6) == 128 * (d4 % 2) + 4 * d5 + d6 / 8
    ensures Octet4(d6, d7) == 32 * (d6 % 8) + d7
  {
  }

  lemma DigitsCut(d1: digit, d3: digit, d4: digit, d6: digit)
    ensures d1 == 4 * (d1 / 4) + d1 % 4 && d3 == 16 * (d3 / 16) + d3 % 16
    ensures d4 == 2 * (d4 / 2) + d4 % 2 && d6 == 8 * (d6 / 8) + d6 % 8
  {
  }

  /** What is decoded from up to eight digits is the same number, without the bits that make no whole octet. */
  lemma DecodedNumber(d: seq<digit>)
    requires |d| == 2 || |d| == 4 || |d| == 5 || |d| == 7 || |d| == 8
    ensures var x := DecodeShort(d);
      |x| == 5 * |d| / 8 && Number(x, 256) * Shift(|x|) <= Number(d, 32) < Number(x, 256) * Shift(|x|) + Shift(|x|)
  {
    hide Octet0, Octet1, Octet2, Octet3, Octet4, Number;
    OctetNumber(DecodeShort(d));
    DigitNumber(d);
    var d2, d3 := if |d| > 2 then d[2] else 0, if |d| > 3 then d[3] else 0;
    var d4, d5 := if |d| > 4 then d[4] else 0, if |d| > 5 then d[5] else 0;
    var d6, d7 := if |d| > 6 then d[6] else 0, if |d| > 7 then d[7] else 0;
    OctetsOf(d[0], d[1], d2, d3, d4, d5, d6, d7);
    DigitsCut(d[1], d3, d4, d6);
    Digits8(d[0], d[1], d2, d3, d4, d5, d6, d7, d[1] / 4, d[1] % 4, d3 / 16, d3 % 16, d4 / 2, d4 % 2, d6 / 8, d6 % 8);
  }

  /** Every eight digits are decoded by themselves. */
  lemma {:induction false} DecodedBlock(ds: seq<digit>, i: nat)
    requires 8 * i + 8 <= |ds|
    ensures 5 * i + 5 <= |DecodeDigits(ds)|
    ensures DecodeDigits(ds)[5 * i..5 * i + 5] == DecodeShort(ds[8 * i..8 * i + 8])
    decreases i
  {
    hide DecodeShort;
    FullBlock(ds[..8]);
    if |ds| == 8 {
      assert ds[0..8] == ds == ds[..8] && DecodeDigits(ds)[0..5] == DecodeDigits(ds);
    } else if i == 0 {
      assert ds[0..8] == ds[..8];
    } else {
      DecodedBlock(ds[8..], i - 1);
      assert ds[8..][8 * (i - 1)..8 * (i - 1) + 8] == ds[8 * i..8 * i + 8];
      var head, tail := DecodeShort(ds[..8]), DecodeDigits(ds[8..]);
      assert (head + tail)[5 * i..5 * i + 5] == tail[5 * (i - 1)..5 * (i - 1) + 5];
    }
  }

  lemma FullBlock(d: seq<digit>)
    requires |d| == 8
    ensures |DecodeShort(d)| == 5
  {
  }

  /** And so are the digits after the last eight; a tail of one, three or six counts for nothing. */
  lemma {:induction false} DecodedTail(ds: seq<digit>, blocks: nat)
    requires 8 * blocks <= |ds| < 8 * blocks + 8
    ensures 5 * blocks <= |DecodeDigits(ds)| && DecodeDigits(ds)[5 * blocks..] == DecodeShort(ds[8 * blocks..])
    decreases blocks
  {
    hide DecodeShort;
    if blocks == 0 {
      assert ds[0..] == ds && DecodeDigits(ds)[0..] == DecodeDigits(ds);
    } else {
      FullBlock(ds[..8]);
      var head, tail := DecodeShort(ds[..8]), DecodeDigits(ds[8..]);
      DecodedTail(ds[8..], blocks - 1);
      assert ds[8..][8 * (blocks - 1)..] == ds[8 * blocks..];
      if |ds| == 8 {
        assert ds[..8] == ds && ds[8..] == [];
        NoDigits();
        assert head[5..] == [];
      } else {
        assert (head + tail)[5 * blocks..] == tail[5 * (blocks - 1)..];
      }
    }
  }

  lemma NoDigits()
    ensures DecodeShort([]) == []
  {
  }

  /** A text is decoded if and only if it has no character outside the alphabet but CR and LF. */
  lemma {:induction false} DecodesExactly(s: bytes)
    ensures Decode(s).Some? <==> forall c :: c in s ==> c == 13 || c == 10 || DigitOf(c).Some?
  {
    var t := StripNewlines(s);
    forall c ensures c in t <==> c in s && c != 13 && c != 10 { StrippedChars(s, c); }
    if Digits(t).Some? {
      forall c | c in s && c != 13 && c != 10 ensures DigitOf(c).Some? {
        assert c in t;
        var i :| 0 <= i < |t| && t[i] == c;
      }
    }
    if forall c :: c in s ==> c == 13 || c == 10 || DigitOf(c).Some? {
      forall i | 0 <= i < |t| ensures DigitOf(t[i]).Some? { assert t[i] in t && t[i] in s; }
    }
  }

  lemma {:induction false} StrippedChars(s: bytes, c: byte)
    ensures c in StripNewlines(s) <==> c in s && c != 13 && c != 10
  {
    if s != [] {
      StrippedChars(s[1..], c);
      assert s == [s[0]] + s[1..];
    }
  }

  /** Two of the test vectors of section 10 of RFC 4648. */
  lemma TestVectors()
    ensures Encode([102]) == [77, 89]
    ensures Encode([102, 111, 111, 98, 97, 114]) == [77, 90, 88, 87, 54, 89, 84, 66, 79, 73]
  {
    assert [102, 111, 111, 98, 97, 114][..5] == [102, 111, 111, 98, 97];
    assert [102, 111, 111, 98, 97, 114][5..] == [114];
    assert EncodeShort([102, 111, 111, 98, 97]) == [12, 25, 23, 22, 30, 24, 19, 1];
    assert EncodeShort([114]) == [14, 8] && EncodeShort([102]) == [12, 24];
  }
}
