/** The client's end of the tunnel: packets into query names, and packets out of TXT answers. */
module Client {
  import opened Bytes
  import opened Names
  import opened Messages
  import opened Writer
  import opened Framing
  import Base32
  import Builder
  import Parser
  import Reader
  import Txt

  const CLIENT_ID_SIZE := 8
  const NUM_PADDING := 3
  const NUM_PADDING_FOR_POLL := 8

  predicate IsClientID(id: bytes) {
    |id| == CLIENT_ID_SIZE
  }

  /** p cut into pieces of n octets, and a shorter last one. */
  function Chunks(p: bytes, n: nat): seq<bytes>
    requires n > 0
  {
    if p == [] then []
    else if |p| <= n then [p]
    else [p[..n]] + Chunks(p[n..], n)
  }

  method ChunksOf(data: bytes, n: nat) returns (result: seq<bytes>)
    requires n > 0
    ensures result == Chunks(data, n)
  {
    var p := data;
    result := [];
    while |p| > 0
      invariant result + Chunks(p, n) == Chunks(data, n)
      decreases |p|
    {
      var sz := if |p| > n then n else |p|;
      assert p[..|p|] == p && p[|p|..] == [];
      assert (result + [p[..sz]]) + Chunks(p[sz..], n) == result + ([p[..sz]] + Chunks(p[sz..], n));
      result := result + [p[..sz]];
      p := p[sz..];
    }
  }

  lemma {:induction false} ChunksJoin(p: bytes, n: nat)
    requires n > 0
    ensures Join(Chunks(p, n)) == p
  {
    if |p| > n {
      ChunksJoin(p[n..], n);
      assert p[..n] + p[n..] == p;
    } else if p != [] {
      assert Join([p]) == p + Join([p][1..]);
    }
  }

  lemma {:induction false} ChunksValid(p: bytes)
    ensures ValidLabels(Chunks(p, 63))
    ensures LabelsLen(Chunks(p, 63)) == |p| + (|p| + 62) / 63
  {
    if |p| > 63 {
      ChunksValid(p[63..]);
      assert LabelsLen(Chunks(p, 63)) == 64 + LabelsLen(Chunks(p[63..], 63));
      assert (|p| + 62) / 63 == 1 + (|p| - 63 + 62) / 63;
    } else if p != [] {
      assert [p][1..] == [];
      assert LabelsLen([p]) == 1 + |p| + LabelsLen([]);
    }
  }

  // ---------- Capacity ----------

  /** Integer division as Go has it, towards zero. */
  function Quotient(a: int, b: nat): int
    requires b > 0
  {
    if a >= 0 then a / b else -(-a / b)
  }

  /** The raw octets that fit in a name that ends in domain; not positive if the domain is too long. */
  function Capacity(domain: Name): int {
    Quotient(Quotient((254 - LabelsLen(domain)) * 63, 64) * 5, 8)
  }

  method DNSNameCapacity(domain: Name) returns (capacity: int)
    ensures capacity == Capacity(domain)
  {
    capacity := 255;
    capacity := capacity - 1;
    for i := 0 to |domain|
      invariant capacity - LabelsLen(domain[i..]) == 254 - LabelsLen(domain)
    {
      assert domain[i..][1..] == domain[i + 1..];
      capacity := capacity - (|domain[i]| + 1);
    }
    assert domain[|domain|..] == [];
    capacity := Quotient(capacity * 63, 64);
    capacity := Quotient(capacity * 5, 8);
  }

  /** The name that carries data under a domain. */
  function DataName(data: bytes, domain: Name): Name {
    Chunks(Lower(Base32.Encode(data)), 63) + domain
  }

  lemma DataNameLen(data: bytes, domain: Name)
    requires ValidLabels(domain)
    ensures ValidLabels(DataName(data, domain))
    ensures var e := Base32.EncodedLen(|data|);
      NameLen(DataName(data, domain)) == e + (e + 62) / 63 + LabelsLen(domain) + 1
  {
    hide Base32.Encode, Base32.EncodedLen, Chunks, LabelsLen;
    var text := Lower(Base32.Encode(data));
    Base32.EncodeDecode(data);
    ChunksValid(text);
    LabelsLenConcat(Chunks(text, 63), domain);
    var n := DataName(data, domain);
    forall i | 0 <= i < |n| ensures ValidLabel(n[i]) {
      if i < |Chunks(text, 63)| {
        assert n[i] == Chunks(text, 63)[i];
      } else {
        assert n[i] == domain[i - |Chunks(text, 63)|];
      }
    }
  }

  /** e characters in labels of 63 fit in c octets exactly when e is at most c * 63 / 64. */
  lemma LabelsFit(e: nat, c: nat)
    ensures e + (e + 62) / 63 <= c <==> e <= c * 63 / 64
  {
    var k := (e + 62) / 63;
    assert 63 * k - 62 <= e <= 63 * k;
  }

  /** n octets fit in c base32 digits exactly when n is at most c * 5 / 8. */
  lemma DigitsFit(n: nat, c: nat)
    ensures Base32.EncodedLen(n) <= c <==> n <= c * 5 / 8
  {
  }

  /** The capacity is exact: so many octets fit under the domain, and not one more. */
  lemma CapacityTight(data: bytes, domain: Name)
    requires ValidName(domain)
    ensures CheckName(DataName(data, domain)).Ok? <==> |data| <= Capacity(domain)
  {
    DataNameLen(data, domain);
    CheckNameIffValid(DataName(data, domain));
    var c := 254 - LabelsLen(domain);
    LabelsFit(Base32.EncodedLen(|data|), c);
    DigitsFit(|data|, c * 63 / 64);
  }

  /** The packet size limit that the client gives to KCP; run refuses the domain if it is below 80. */
  function ClientMTU(domain: Name): int {
    Capacity(domain) - CLIENT_ID_SIZE - 1 - NUM_PADDING - 1
  }

  // ---------- Sending ----------

  function PaddingFor(p: bytes): nat {
    if p == [] then NUM_PADDING_FOR_POLL else NUM_PADDING
  }

  /** What a query carries: the ClientID, the padding, and the packet unless this is a poll. */
  function QueryData(id: bytes, padding: bytes, p: bytes): bytes
    requires |padding| == PaddingFor(p) && |p| < PADDING_BASE
  {
    id + PadAndFrame(padding, p)
  }

  const REQUEST_OPT := RR([], RRTYPE_OPT, 4096, 0, [])

  function Query(queryID: u16, name: Name): Message {
    Message(queryID, 0x0100, [Question(name, RRTYPE_TXT, CLASS_IN)], [], [], [REQUEST_OPT])
  }

  /** The datagram that send hands to the transport. */
  function SendResult(id: bytes, padding: bytes, p: bytes, domain: Name, queryID: u16): Result<bytes>
    requires |padding| == PaddingFor(p)
  {
    if |p| >= PADDING_BASE then Err(PacketTooLong)
    else
      var name :- CheckName(DataName(QueryData(id, padding, p), domain));
      CheckNameIffValid(DataName(QueryData(id, padding, p), domain));
      WireFormat(Query(queryID, name))
  }

  /** send, with the random padding and query ID as arguments. */
  method Send(id: bytes, padding: bytes, p: bytes, domain: Name, queryID: u16) returns (r: Result<bytes>)
    requires |padding| == PaddingFor(p)
    ensures r == SendResult(id, padding, p, domain, queryID)
  {
    if |p| >= 224 { return Err(PacketTooLong); }
    var buf := id;
    var n := NUM_PADDING;
    if |p| == 0 { n := NUM_PADDING_FOR_POLL; }
    buf := buf + [224 + n];
    buf := buf + padding;
    if |p| > 0 {
      buf := buf + [|p|];
      buf := buf + p;
    }
    assert buf == QueryData(id, padding, p);
    var encoded := Lower(Base32.Encode(buf));
    var labels := ChunksOf(encoded, 63);
    labels := labels + domain;
    var name :- Reader.NewName(labels);
    CheckNameIffValid(labels);
    r := Builder.ToWireFormat(Query(queryID, name));
  }

  /** Every packet within the limit, and every poll, fits in a name under an accepted domain. */
  lemma PacketFits(id: bytes, padding: bytes, p: bytes, domain: Name)
    requires IsClientID(id) && |padding| == PaddingFor(p)
    requires ValidName(domain) && ClientMTU(domain) >= 80 && |p| <= ClientMTU(domain)
    ensures |p| < PADDING_BASE && ValidName(DataName(QueryData(id, padding, p), domain))
  {
    var data := QueryData(id, padding, p);
    CapacityTight(data, domain);
    CheckNameIffValid(DataName(data, domain));
  }

  // ---------- Receiving ----------

  /** The TXT payload of a response, or nothing if the response is not of the expected form. */
  function ResponsePayload(resp: Message, domain: Name): bytes {
    if !resp.IsResponse() || resp.Rcode() != RCODE_NO_ERROR then []
    else if |resp.answer| != 1 then []
    else if WithoutSuffix(resp.answer[0].name, domain).None? then []
    else if resp.answer[0].typ != RRTYPE_TXT then []
    else match Txt.DecodeTXT(resp.answer[0].data)
      case Ok(payload) => payload
      case Err(_) => []
  }

  /** The packets the client finds in a parsed response. */
  function ReceivedPackets(resp: Message, domain: Name): seq<bytes> {
    SizedPackets(ResponsePayload(resp, domain), 0)
  }

  /** The size of recvLoop's buffer. */
  const RESPONSE_BUFFER := 4096

  /** The packets the client finds in a datagram, of which it sees no more than its buffer holds. */
  function ExtractedFrom(datagram: bytes, domain: Name): seq<bytes> {
    match Parser.Parse(Buffered(datagram, RESPONSE_BUFFER))
    case Err(_) => []
    case Ok(resp) => ReceivedPackets(resp, domain)
  }

  /** The client's recvLoop, for one datagram. */
  method HandleDatagram(datagram: bytes, domain: Name) returns (packets: seq<bytes>)
    ensures packets == ExtractedFrom(datagram, domain)
  {
    var resp := Reader.MessageFromWireFormat(Buffered(datagram, RESPONSE_BUFFER));
    if resp.Err? { return []; }
    var payload := ResponsePayload(resp.value, domain);
    packets := ExtractSized(payload);
  }

  /**
   * The client takes packets only from a response without an error, with exactly one answer, of type TXT,
   * under the domain, whose data are whole character-strings; and then all of them.
   */
  lemma PacketsExactly(resp: Message, domain: Name)
    ensures ReceivedPackets(resp, domain) ==
      if && resp.flags >= 0x8000 && resp.flags % 0x10 == 0 && |resp.answer| == 1 && resp.answer[0].typ == 16
         && WithoutSuffix(resp.answer[0].name, domain).Some? && Txt.DecodeTXT(resp.answer[0].data).Ok?
      then SizedPackets(Txt.DecodeTXT(resp.answer[0].data).value, 0) else []
  {
    NextSizedOctets([], 0);
  }
}
