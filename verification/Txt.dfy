/** TXT RDATA: a payload as a sequence of one or more character-strings (section 3.3.14 of RFC 1035). */
module Txt {
  import opened Bytes
  import opened Names

  function EncodeTXT(p: bytes): bytes {
    if |p| > 255 then ([255] + p[..255]) + EncodeTXT(p[255..]) else [|p|] + p
  }

  function DecodeTXT(p: bytes): Result<bytes> {
    if p == [] then Err(UnexpectedEOF)
    else if |p| - 1 < p[0] then Err(UnexpectedEOF)
    else
      var text, rest := p[1..1 + p[0]], p[1 + p[0]..];
      if rest == [] then Ok(text)
      else
        var more :- DecodeTXT(rest);
        Ok(text + more)
  }

  method EncodeRDataTXT(data: bytes) returns (buf: bytes)
    ensures buf == EncodeTXT(data)
  {
    var p := data;
    buf := [];
    while |p| > 255
      invariant buf + EncodeTXT(p) == EncodeTXT(data)
      decreases |p|
    {
      assert (buf + ([255] + p[..255])) + EncodeTXT(p[255..]) == buf + EncodeTXT(p);
      buf := buf + ([255] + p[..255]);
      p := p[255..];
    }
    buf := buf + ([|p|] + p);
  }

  method DecodeRDataTXT(data: bytes) returns (r: Result<bytes>)
    ensures r == DecodeTXT(data)
  {
    var p := data;
    var buf: bytes := [];
    assert DecodeTXT(data).Ok? ==> [] + DecodeTXT(data).value == DecodeTXT(data).value;
    while true
      invariant match DecodeTXT(p)
                case Ok(rest) => DecodeTXT(data) == Ok(buf + rest)
                case Err(e) => DecodeTXT(data) == Err(e)
      decreases |p|
    {
      if |p| == 0 { return Err(UnexpectedEOF); }
      var n := p[0];
      if |p| - 1 < n { return Err(UnexpectedEOF); }
      ghost var rest := DecodeTXT(p[1 + n..]);
      assert rest.Ok? ==> buf + (p[1..1 + n] + rest.value) == (buf + p[1..1 + n]) + rest.value;
      buf := buf + p[1..1 + n];
      p := p[1 + n..];
      if |p| == 0 { break; }
    }
    return Ok(buf);
  }

  lemma {:induction false} TXTRoundTrip(p: bytes)
    ensures DecodeTXT(EncodeTXT(p)) == Ok(p)
  {
    var e := EncodeTXT(p);
    if |p| > 255 {
      TXTRoundTrip(p[255..]);
      assert e[1..256] == p[..255] && e[256..] == EncodeTXT(p[255..]);
      assert p[..255] + p[255..] == p;
    } else {
      assert e[1..1 + |p|] == p && e[1 + |p|..] == [];
    }
  }

  /** One length octet for every 255 octets of payload or part thereof, and at least one. */
  function TXTLen(n: nat): nat {
    n + Max(1, (n + 254) / 255)
  }

  lemma {:induction false} EncodedTXTLen(p: bytes)
    ensures |EncodeTXT(p)| == TXTLen(|p|)
  {
    if |p| > 255 {
      EncodedTXTLen(p[255..]);
      assert (|p| + 254) / 255 == 1 + (|p| - 255 + 254) / 255;
    }
  }

  lemma TXTLenIncreases(m: nat, n: nat)
    requires m < n
    ensures TXTLen(m) < TXTLen(n)
  {
  }

  /** Character-strings one after the other, each behind its length. */
  function Strings(ss: seq<bytes>): bytes
    requires AllShort(ss)
  {
    if ss == [] then [] else [|ss[0]|] + ss[0] + Strings(ss[1..])
  }

  predicate AllShort(ss: seq<bytes>) {
    forall i :: 0 <= i < |ss| ==> |ss[i]| <= 255
  }

  lemma {:induction false} StringsDecode(ss: seq<bytes>)
    requires AllShort(ss) && ss != []
    ensures DecodeTXT(Strings(ss)) == Ok(Join(ss))
  {
    var e, rest := Strings(ss), Strings(ss[1..]);
    assert e[0] == |ss[0]| && e[1..1 + |ss[0]|] == ss[0] && e[1 + |ss[0]|..] == rest;
    if |ss| == 1 {
      assert rest == [] && ss[0] + [] == ss[0] && Join(ss[1..]) == [];
    } else {
      StringsDecode(ss[1..]);
      assert |rest| > 0;
    }
  }

  lemma {:induction false} DecodedStrings(p: bytes) returns (ss: seq<bytes>)
    requires DecodeTXT(p).Ok?
    ensures ss != [] && AllShort(ss) && Strings(ss) == p && Join(ss) == DecodeTXT(p).value
  {
    var text, rest := p[1..1 + p[0]], p[1 + p[0]..];
    var more: seq<bytes> := [];
    if rest == [] {
      assert text + [] == text && Join([]) == [] && Strings([]) == [];
    } else {
      more := DecodedStrings(rest);
    }
    ss := [text] + more;
    assert ss[1..] == more;
    assert [|text|] + text + rest == p;
  }

  /** Decoding succeeds exactly on one or more whole character-strings, and joins them. */
  lemma {:induction false} DecodesExactly(p: bytes, x: bytes)
    ensures DecodeTXT(p) == Ok(x) <==> exists ss :: ss != [] && AllShort(ss) && Strings(ss) == p && Join(ss) == x
    ensures DecodeTXT(p).Err? ==> DecodeTXT(p).error == UnexpectedEOF
  {
    if ss :| ss != [] && AllShort(ss) && Strings(ss) == p && Join(ss) == x {
      StringsDecode(ss);
    }
    if DecodeTXT(p) == Ok(x) {
      var ss := DecodedStrings(p);
    }
    OnlyUnexpected(p);
  }

  lemma {:induction false} OnlyUnexpected(p: bytes)
    ensures DecodeTXT(p).Err? ==> DecodeTXT(p).error == UnexpectedEOF
  {
    if p != [] && |p| - 1 >= p[0] && p[1 + p[0]..] != [] { OnlyUnexpected(p[1 + p[0]..]); }
  }
}
