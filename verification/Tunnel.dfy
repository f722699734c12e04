/** The two directions of the tunnel end to end, through the message codec. */
module Tunnel {
  import opened Bytes
  import opened Names
  import opened Messages
  import opened Writer
  import opened Parser
  import opened HopLimit
  import opened Framing
  import opened Client
  import opened Server
  import opened Capacity
  import Base32
  import Txt

  // ---------- Upstream ----------

  /** The server decodes what the client encoded, from any name that differs only in the case of letters. */
  lemma FoldedNamePayload(data: bytes, domain: Name, name: Name)
    requires SameFold(name, DataName(data, domain))
    ensures NamePayload(name, domain) == Some(data)
  {
    var text := Lower(Base32.Encode(data));
    var prefix := Chunks(text, 63);
    SuffixOfFolded(prefix, domain, name);
    UpperJoinFolded(name[..|prefix|], prefix);
    ChunksJoin(text, 63);
    Base32.EncodeDecode(data);
  }

  /** The question of a query carries this packet of this client, up to the case of letters in the name. */
  predicate Carries(query: Message, id: bytes, padding: bytes, p: bytes, domain: Name)
    requires |padding| == PaddingFor(p) && |p| < PADDING_BASE
  {
    && |query.question| == 1 && query.question[0].typ == RRTYPE_TXT
    && SameFold(query.question[0].name, DataName(QueryData(id, padding, p), domain))
  }

  /** A plain query whose OPT record, if any, is acceptable and announces enough room. */
  predicate PlainQuery(query: Message, maxUDPPayload: int) {
    && !query.IsResponse() && query.Opcode() == 0
    && OptsAcceptable(query.additional) && AdvertisedSize(query.additional) >= maxUDPPayload
  }

  /**
   * Whatever a resolver does to the case of the name and to the other fields, as long as it is still a
   * plain query: the server recovers exactly the ClientID, and the packet unless it is a poll.
   */
  lemma MangledQueryDelivers(query: Message, id: bytes, padding: bytes, p: bytes, domain: Name, maxUDPPayload: int)
    requires IsClientID(id) && |padding| == PaddingFor(p) && |p| < PADDING_BASE
    requires Carries(query, id, padding, p, domain) && PlainQuery(query, maxUDPPayload)
    ensures Receive(query, domain, maxUDPPayload)
         == Server.Received(Some(AcceptedResponse(query)), id, if p == [] then [] else [p])
  {
    var data := QueryData(id, padding, p);
    FoldedNamePayload(data, domain, query.question[0].name);
    AcceptedQuery(query, domain, maxUDPPayload);
    assert data[..8] == id && data[8..] == PadAndFrame(padding, p);
    PaddedRoundTrip(padding, p);
  }

  lemma QueryRoundTrip(queryID: u16, name: Name)
    requires ValidName(name)
    ensures ValidNames(Query(queryID, name)) && Fits(Query(queryID, name))
    ensures var buf := WireFormat(Query(queryID, name)).value;
      Parse(buf) == Ok(Query(queryID, name)) && |buf| <= 282
  {
    var m := Query(queryID, name);
    assert ValidName(REQUEST_OPT.name);
    SmallMessageRoundTrip(m);
    CompressionNeverLonger(m);
    assert m.question[1..] == [] && m.additional[1..] == [];
    assert QuestionsLen(m.question) == NameLen(name) + 4 + QuestionsLen([]);
    assert RRsLen(m.additional) == NameLen([]) + 10 + RRsLen([]);
  }

  lemma QueryIsPlain(queryID: u16, name: Name, maxUDPPayload: int)
    requires maxUDPPayload <= 4096
    ensures PlainQuery(Query(queryID, name), maxUDPPayload)
  {
    var additional := Query(queryID, name).additional;
    assert OptRecords(additional) == [REQUEST_OPT] by {
      assert additional[1..] == [];
      assert OptRecords([]) == [];
    }
    assert EDNSVersion(REQUEST_OPT) == 0;
  }

  lemma SendSucceeds(id: bytes, padding: bytes, p: bytes, domain: Name, queryID: u16)
    requires IsClientID(id) && |padding| == PaddingFor(p)
    requires ValidName(domain) && ClientMTU(domain) >= 80 && |p| <= ClientMTU(domain)
    ensures |p| < PADDING_BASE
    ensures var query := Query(queryID, DataName(QueryData(id, padding, p), domain));
      && ValidNames(query) && Fits(query)
      && SendResult(id, padding, p, domain, queryID) == WireFormat(query)
  {
    PacketFits(id, padding, p, domain);
    var name := DataName(QueryData(id, padding, p), domain);
    CheckNameIffValid(name);
    QueryRoundTrip(queryID, name);
  }

  lemma QueryHeader(queryID: u16, name: Name)
    ensures !Query(queryID, name).IsResponse() && Query(queryID, name).Opcode() == 0 && EDNSVersion(REQUEST_OPT) == 0
  {
  }

  /** Where the server asks for more than the client announces, it refuses the query. */
  lemma RefusedQuery(queryID: u16, data: bytes, domain: Name, maxUDPPayload: int)
    requires maxUDPPayload > 4096
    ensures var r := Receive(Query(queryID, DataName(data, domain)), domain, maxUDPPayload);
      r.packets == [] && r.resp.Some? && r.resp.value.Rcode() == RCODE_FORMAT_ERROR
  {
    hide Receive, DataName, WithoutSuffix, OptRecords, EDNSVersion;
    hide Message.IsResponse, Message.Opcode, Message.Rcode;
    QueryHeader(queryID, DataName(data, domain));
    var name := DataName(data, domain);
    var query := Query(queryID, name);
    OneOpt(REQUEST_OPT);
    assert SameFold(name, name);
    FoldedNamePayload(data, domain, name);
    PayloadUnderDomain(query, domain);
    RejectedQuery(query, domain, maxUDPPayload);
  }

  /**
   * Every packet within the client's limit, and every poll, goes into a datagram that the server reads and
   * parses. If the server asks for no more than the 4096 octets that the client announces, it extracts
   * exactly the ClientID and that packet, or nothing for a poll; otherwise it answers every query of this
   * client with a format error and takes nothing.
   */
  lemma {:induction false} UpstreamEndToEnd(id: bytes, padding: bytes, p: bytes, domain: Name, queryID: u16,
                                            maxUDPPayload: int)
    requires IsClientID(id) && |padding| == PaddingFor(p)
    requires ValidName(domain) && ClientMTU(domain) >= 80 && |p| <= ClientMTU(domain)
    ensures var sent := SendResult(id, padding, p, domain, queryID);
      && sent.Ok? && |sent.value| <= 4096 && Parse(sent.value).Ok?
      && var query := Parse(sent.value).value;
         var r := Receive(query, domain, maxUDPPayload);
         if maxUDPPayload <= 4096
         then r == Server.Received(Some(AcceptedResponse(query)), id, if p == [] then [] else [p])
         else r.packets == [] && r.resp.Some? && r.resp.value.Rcode() == RCODE_FORMAT_ERROR
  {
    SendSucceeds(id, padding, p, domain, queryID);
    var data := QueryData(id, padding, p);
    var name := DataName(data, domain);
    var query := Query(queryID, name);
    QueryRoundTrip(queryID, name);
    if maxUDPPayload <= 4096 {
      QueryIsPlain(queryID, name, maxUDPPayload);
      assert SameFold(name, name);
      MangledQueryDelivers(query, id, padding, p, domain, maxUDPPayload);
    } else {
      RefusedQuery(queryID, data, domain, maxUDPPayload);
    }
  }

  /** Upstream, the packet arrives exactly if the server asks for at most what the client announces. */
  lemma {:induction false} UpstreamExactly(id: bytes, padding: bytes, p: bytes, domain: Name, queryID: u16,
                                           maxUDPPayload: int)
    requires IsClientID(id) && |padding| == PaddingFor(p) && p != []
    requires ValidName(domain) && ClientMTU(domain) >= 80 && |p| <= ClientMTU(domain)
    ensures var sent := SendResult(id, padding, p, domain, queryID);
      && sent.Ok? && Parse(sent.value).Ok?
      && var r := Receive(Parse(sent.value).value, domain, maxUDPPayload);
         r.client == id && r.packets == [p] <==> maxUDPPayload <= 4096
  {
    hide Receive, SendResult, Parse;
    UpstreamEndToEnd(id, padding, p, domain, queryID, maxUDPPayload);
  }

  // ---------- Downstream ----------

  /** The answer that carries these packets. */
  function Answer(query: Message, packets: seq<bytes>): Message
    requires |query.question| == 1 && Sendable(packets)
  {
    DataResponse(AcceptedResponse(query), Frame(packets))
  }

  lemma {:induction false} AnswerPayload(query: Message, packets: seq<bytes>, domain: Name, maxUDPPayload: int)
    requires Acceptable(query, domain, maxUDPPayload) && Sendable(packets)
    ensures ResponsePayload(Answer(query, packets), domain) == Frame(packets)
  {
    Txt.TXTRoundTrip(Frame(packets));
  }

  /**
   * Every list of packets that fits in the answer to an accepted query arrives at the client complete and
   * in order.
   */
  lemma {:induction false} DownstreamEndToEnd(query: Message, packets: seq<bytes>, domain: Name, maxUDPPayload: int)
    requires ValidNames(query) && Acceptable(query, domain, maxUDPPayload)
    requires Sendable(packets) && Txt.TXTLen(FrameLen(packets)) < 0x1_0000
    ensures ValidNames(Answer(query, packets)) && Fits(Answer(query, packets))
    ensures var buf := WireFormat(Answer(query, packets)).value;
      && Parse(buf) == Ok(Answer(query, packets))
      && ReceivedPackets(Parse(buf).value, domain) == packets
  {
    FrameSize(packets);
    assert Fillable(AcceptedResponse(query));
    DataResponseWritable(AcceptedResponse(query), Frame(packets));
    SmallMessageRoundTrip(Answer(query, packets));
    AnswerPayload(query, packets, domain, maxUDPPayload);
    FrameRoundTrip(packets);
  }

  /** A payload cut short on the way yields a prefix of the packets. */
  lemma CutAnswerYieldsPrefix(packets: seq<bytes>, cut: bytes)
    requires Sendable(packets) && cut <= Frame(packets)
    ensures SizedPackets(cut, 0) <= packets
  {
    CutPayload(cut, Frame(packets), 0);
    FrameRoundTrip(packets);
  }
}
