/**
 * Packets inside payloads. Downstream, every packet has a 16-bit length before it. Upstream the length
 * is one octet, and values from 0xe0 on stand for padding to skip.
 */
module Framing {
  import opened Bytes
  import Reader

  const PADDING_BASE := 0xe0

  /** Running out of input is only a clean end when nothing at all was left. */
  function Unexpected<T>(r: Result<T>): Result<T> {
    if r == Err(EOF) then Err(UnexpectedEOF) else r
  }

  // ---------- Downstream ----------

  /** The client's nextPacket. */
  function NextSized(buf: bytes, pos: nat): (r: Result<Parsed<bytes>>)
    ensures r.Ok? ==> pos < r.value.end <= |buf|
  {
    var n :- TakeU16(buf, pos);
    Unexpected(Take(buf, n.end, n.item))
  }

  /** Every packet up to the first one that is missing or incomplete. */
  function SizedPackets(buf: bytes, pos: nat): seq<bytes>
    decreases |buf| - pos
  {
    match NextSized(buf, pos)
    case Err(_) => []
    case Ok(p) => [p.item] + SizedPackets(buf, p.end)
  }

  function Frame(packets: seq<bytes>): bytes
    requires Sendable(packets)
  {
    if packets == [] then [] else U16(|packets[0]|) + packets[0] + Frame(packets[1..])
  }

  /** Each packet's length fits in its prefix. */
  predicate Sendable(packets: seq<bytes>) {
    forall i :: 0 <= i < |packets| ==> |packets[i]| < 0x1_0000
  }

  method NextSizedPacket(r: Reader.ByteReader) returns (p: Result<bytes>)
    modifies r`pos
    ensures Reader.Agrees(p, r.pos, NextSized(r.buf, old(r.pos)))
  {
    var n :- r.ReadU16();
    p := r.ReadFull(n);
    if p == Err(EOF) { p := Err(UnexpectedEOF); }
  }

  /** The inner loop of the client's recvLoop. */
  method ExtractSized(payload: bytes) returns (packets: seq<bytes>)
    ensures packets == SizedPackets(payload, 0)
  {
    var r := new Reader.ByteReader(payload);
    packets := [];
    while true
      invariant packets + SizedPackets(payload, r.pos) == SizedPackets(payload, 0)
      decreases |payload| - r.pos
    {
      ghost var at := r.pos;
      var p := NextSizedPacket(r);
      if p.Err? { break; }
      assert packets + ([p.value] + SizedPackets(payload, r.pos))
          == (packets + [p.value]) + SizedPackets(payload, r.pos);
      packets := packets + [p.value];
    }
  }

  lemma FirstFramed(w: bytes, p: bytes, rest: bytes)
    requires |p| < 0x1_0000
    ensures NextSized(w + (U16(|p|) + p + rest), |w|) == Ok(Parsed(p, |w| + 2 + |p|))
  {
    var buf := w + (U16(|p|) + p + rest);
    assert buf[|w|..|w| + 2] == U16(|p|);
    U16RoundTrip(|p|);
    assert buf[|w| + 2..|w| + 2 + |p|] == p;
  }

  lemma {:induction false} FramedFrom(w: bytes, packets: seq<bytes>)
    requires Sendable(packets)
    ensures SizedPackets(w + Frame(packets), |w|) == packets
    decreases |packets|
  {
    if packets != [] {
      var p, rest := packets[0], Frame(packets[1..]);
      FirstFramed(w, p, rest);
      var w1 := w + (U16(|p|) + p);
      assert w1 + rest == w + (U16(|p|) + p + rest);
      FramedFrom(w1, packets[1..]);
      assert [p] + packets[1..] == packets;
    }
  }

  /** What the server frames is what the client finds. */
  lemma FrameRoundTrip(packets: seq<bytes>)
    requires Sendable(packets)
    ensures SizedPackets(Frame(packets), 0) == packets
  {
    FramedFrom([], packets);
    assert [] + Frame(packets) == Frame(packets);
  }

  lemma NextSizedStable(buf: bytes, more: bytes, pos: nat)
    requires buf <= more && NextSized(buf, pos).Ok?
    ensures NextSized(more, pos) == NextSized(buf, pos)
  {
    assert more[pos..pos + 2] == buf[pos..pos + 2];
    var n := TakeU16(buf, pos).value.item;
    assert more[pos + 2..pos + 2 + n] == buf[pos + 2..pos + 2 + n];
  }

  /** A payload cut short anywhere yields some of its packets, in order, and never a partial one. */
  lemma {:induction false} CutPayload(buf: bytes, more: bytes, pos: nat)
    requires buf <= more
    ensures SizedPackets(buf, pos) <= SizedPackets(more, pos)
    decreases |buf| - pos
  {
    if NextSized(buf, pos).Ok? {
      NextSizedStable(buf, more, pos);
      CutPayload(buf, more, NextSized(buf, pos).value.end);
    }
  }

  function FrameLen(packets: seq<bytes>): nat {
    if packets == [] then 0 else 2 + |packets[0]| + FrameLen(packets[1..])
  }

  lemma {:induction false} FrameSize(packets: seq<bytes>)
    requires Sendable(packets)
    ensures |Frame(packets)| == FrameLen(packets)
  {
    if packets != [] { FrameSize(packets[1..]); }
  }

  lemma {:induction false} FrameAppend(packets: seq<bytes>, p: bytes)
    requires Sendable(packets) && |p| < 0x1_0000
    ensures Sendable(packets + [p])
    ensures Frame(packets + [p]) == Frame(packets) + (U16(|p|) + p)
    ensures FrameLen(packets + [p]) == FrameLen(packets) + 2 + |p|
  {
    if packets == [] {
      assert packets + [p] == [p] && [p][1..] == [];
    } else {
      assert (packets + [p])[1..] == packets[1..] + [p];
      FrameAppend(packets[1..], p);
    }
  }

  // ---------- Upstream ----------

  /** The server's nextPacket. */
  function NextPadded(buf: bytes, pos: nat): (r: Result<Parsed<bytes>>)
    ensures r.Ok? ==> pos < r.value.end <= |buf|
    decreases |buf| - pos
  {
    var prefix :- Take(buf, pos, 1);
    var n := prefix.item[0];
    if n >= PADDING_BASE then
      var padding :- Unexpected(Take(buf, prefix.end, n - PADDING_BASE));
      NextPadded(buf, padding.end)
    else Unexpected(Take(buf, prefix.end, n))
  }

  function PaddedPackets(buf: bytes, pos: nat): seq<bytes>
    decreases |buf| - pos
  {
    match NextPadded(buf, pos)
    case Err(_) => []
    case Ok(p) => [p.item] + PaddedPackets(buf, p.end)
  }

  method NextPaddedPacket(r: Reader.ByteReader) returns (p: Result<bytes>)
    modifies r`pos
    ensures Reader.Agrees(p, r.pos, NextPadded(r.buf, old(r.pos)))
  {
    while true
      invariant NextPadded(r.buf, old(r.pos)) == NextPadded(r.buf, r.pos)
      decreases |r.buf| - r.pos
    {
      var prefix :- r.ReadFull(1);
      if prefix[0] >= PADDING_BASE {
        var padding := r.ReadFull(prefix[0] - PADDING_BASE);
        if padding.Err? { return if padding == Err(EOF) then Err(UnexpectedEOF) else padding; }
      } else {
        p := r.ReadFull(prefix[0]);
        if p == Err(EOF) { p := Err(UnexpectedEOF); }
        return;
      }
    }
  }

  /** The inner loop of the server's recvLoop. */
  method ExtractPadded(payload: bytes) returns (packets: seq<bytes>)
    ensures packets == PaddedPackets(payload, 0)
  {
    var r := new Reader.ByteReader(payload);
    packets := [];
    while true
      invariant packets + PaddedPackets(payload, r.pos) == PaddedPackets(payload, 0)
      decreases |payload| - r.pos
    {
      var p := NextPaddedPacket(r);
      if p.Err? { break; }
      assert packets + ([p.value] + PaddedPackets(payload, r.pos))
          == (packets + [p.value]) + PaddedPackets(payload, r.pos);
      packets := packets + [p.value];
    }
  }

  /** What send puts after the ClientID: padding, and the packet unless it is a poll. */
  function PadAndFrame(padding: bytes, p: bytes): bytes
    requires |padding| < 0x20 && |p| < PADDING_BASE
  {
    [PADDING_BASE + |padding|] + padding + (if p == [] then [] else [|p|] + p)
  }

  /** The server finds the one packet, or nothing in a poll, whatever the padding. */
  lemma PaddedRoundTrip(padding: bytes, p: bytes)
    requires |padding| < 0x20 && |p| < PADDING_BASE
    ensures PaddedPackets(PadAndFrame(padding, p), 0) == if p == [] then [] else [p]
  {
    var buf := PadAndFrame(padding, p);
    var k := 1 + |padding|;
    assert buf[0] == PADDING_BASE + |padding|;
    assert |padding| > 0 ==> Take(buf, 1, |padding|).Ok?;
    assert NextPadded(buf, 0) == NextPadded(buf, k);
    if p != [] {
      assert buf[k] == |p| && buf[k + 1..k + 1 + |p|] == p;
      assert NextPadded(buf, k) == Ok(Parsed(p, |buf|));
      assert NextPadded(buf, |buf|) == Err(EOF);
    }
  }

  // ---------- Every payload, in octets ----------

  /** From pos on there are these packets, each behind its length in two octets, and then no whole one. */
  predicate SizedAt(buf: bytes, pos: nat, packets: seq<bytes>)
    decreases |packets|
  {
    && pos <= |buf|
    && if packets == [] then |buf| - pos < 2 || |buf| - pos - 2 < Word(buf, pos)
       else
         && pos + 2 <= |buf|
         && var end := pos + 2 + Word(buf, pos);
            end <= |buf| && buf[pos + 2..end] == packets[0] && SizedAt(buf, end, packets[1..])
  }

  lemma NextSizedOctets(buf: bytes, pos: nat)
    requires pos <= |buf|
    ensures NextSized(buf, pos)
         == if |buf| == pos then Err(EOF)
            else if |buf| - pos < 2 then Err(UnexpectedEOF)
            else if |buf| - pos - 2 < Word(buf, pos) then Err(UnexpectedEOF)
            else
              var end := pos + 2 + Word(buf, pos);
              Ok(Parsed(buf[pos + 2..end], end))
  {
    if pos + 2 <= |buf| {
      var n := Word(buf, pos);
      WordTaken(buf, pos);
      if n == 0 { assert buf[pos + 2..pos + 2] == []; }
    }
  }

  /** The client extracts exactly the whole packets that a payload begins with, whatever the payload. */
  lemma {:induction false} SizedExactly(buf: bytes, pos: nat, packets: seq<bytes>)
    requires pos <= |buf|
    ensures SizedPackets(buf, pos) == packets <==> SizedAt(buf, pos, packets)
    decreases |buf| - pos
  {
    hide NextSized;
    NextSizedOctets(buf, pos);
    if pos + 2 <= |buf| && pos + 2 + Word(buf, pos) <= |buf| {
      var end := pos + 2 + Word(buf, pos);
      var p := buf[pos + 2..end];
      assert SizedPackets(buf, pos) == [p] + SizedPackets(buf, end);
      if packets != [] {
        SizedExactly(buf, end, packets[1..]);
        assert [packets[0]] + packets[1..] == packets;
        assert ([p] + SizedPackets(buf, end))[1..] == SizedPackets(buf, end);
      }
    }
  }

  /** From pos on, octets from 224 announce padding and smaller ones a packet; then no whole one is left. */
  predicate PaddedAt(buf: bytes, pos: nat, packets: seq<bytes>)
    decreases |buf| - pos
  {
    if pos >= |buf| then packets == []
    else if buf[pos] >= 224 then
      if pos + 1 + (buf[pos] - 224) > |buf| then packets == [] else PaddedAt(buf, pos + 1 + (buf[pos] - 224), packets)
    else if pos + 1 + buf[pos] > |buf| then packets == []
    else
      && packets != [] && buf[pos + 1..pos + 1 + buf[pos]] == packets[0]
      && PaddedAt(buf, pos + 1 + buf[pos], packets[1..])
  }

  lemma NextPaddedOctets(buf: bytes, pos: nat)
    requires pos < |buf|
    ensures var n := buf[pos];
      NextPadded(buf, pos)
        == if n >= 224 then
             if pos + 1 + (n - 224) > |buf| then Err(UnexpectedEOF) else NextPadded(buf, pos + 1 + (n - 224))
           else if pos + 1 + n > |buf| then Err(UnexpectedEOF)
           else Ok(Parsed(buf[pos + 1..pos + 1 + n], pos + 1 + n))
  {
    assert Take(buf, pos, 1) == Ok(Parsed([buf[pos]], pos + 1)) by { assert buf[pos..pos + 1] == [buf[pos]]; }
    if buf[pos] == 0 { assert buf[pos + 1..pos + 1] == []; }
  }

  lemma PaddedPacketsOctets(buf: bytes, pos: nat)
    requires pos < |buf|
    ensures var n := buf[pos];
      PaddedPackets(buf, pos)
        == if n >= 224 then
             if pos + 1 + (n - 224) > |buf| then [] else PaddedPackets(buf, pos + 1 + (n - 224))
           else if pos + 1 + n > |buf| then []
           else [buf[pos + 1..pos + 1 + n]] + PaddedPackets(buf, pos + 1 + n)
  {
    NextPaddedOctets(buf, pos);
    hide NextPadded;
  }

  lemma NoneLeft(buf: bytes, pos: nat)
    requires pos >= |buf|
    ensures PaddedPackets(buf, pos) == []
  {
  }

  /** The server extracts exactly the whole packets of a payload, skipping any padding between them. */
  lemma {:induction false} PaddedExactly(buf: bytes, pos: nat, packets: seq<bytes>)
    ensures PaddedPackets(buf, pos) == packets <==> PaddedAt(buf, pos, packets)
    decreases |buf| - pos
  {
    hide NextPadded, PaddedPackets;
    if pos >= |buf| {
      NoneLeft(buf, pos);
    } else {
      PaddedPacketsOctets(buf, pos);
      var n := buf[pos];
      if n >= 224 {
        if pos + 1 + (n - 224) <= |buf| { PaddedExactly(buf, pos + 1 + (n - 224), packets); }
      } else if pos + 1 + n <= |buf| && packets != [] {
        var end := pos + 1 + n;
        PaddedExactly(buf, end, packets[1..]);
        assert [packets[0]] + packets[1..] == packets;
        assert ([buf[pos + 1..end]] + PaddedPackets(buf, end))[1..] == PaddedPackets(buf, end);
      }
    }
  }
}
