/** The server's handling of queries: what to answer, and which packets a query carries. */
module Server {
  import opened Bytes
  import opened Names
  import opened Messages
  import opened Framing
  import opened Client
  import Base32

  const RESPONSE_TTL: u32 := 60

  // ---------- responseFor ----------

  /** A response to be sent, if any, and the payload of the query. */
  datatype Response = Response(resp: Option<Message>, payload: bytes)

  const RESPONSE_OPT := RR([], RRTYPE_OPT, 4096, 0, [])
  const BAD_VERSION_OPT := RESPONSE_OPT.(ttl := 0x0100_0000)

  /** What the OPT records of a query come to. */
  datatype OptScan = TooManyOpts | BadVersion | Advertised(size: nat, present: bool)

  function EDNSVersion(rr: RR): nat {
    rr.ttl / 0x1_0000 % 0x100
  }

  /** Where the version is in the TTL of an OPT record, by section 6.1.3 of RFC 6891. */
  lemma EDNSLayout(rr: RR, rcodeHigh: nat, version: nat, flags: nat)
    requires rcodeHigh < 256 && version < 256 && flags < 65536
    requires rr.ttl == rcodeHigh * 16777216 + version * 65536 + flags
    ensures EDNSVersion(rr) == version
  {
    assert rr.ttl / 0x1_0000 == rcodeHigh * 256 + version;
  }

  function ScanOpts(rrs: seq<RR>, size: nat, present: bool): OptScan {
    if rrs == [] then Advertised(size, present)
    else if rrs[0].typ != RRTYPE_OPT then ScanOpts(rrs[1..], size, present)
    else if present then TooManyOpts
    else if EDNSVersion(rrs[0]) != 0 then BadVersion
    else ScanOpts(rrs[1..], rrs[0].class_, true)
  }

  /** The flags with a response code put where there was none; the source uses a bitwise OR. */
  function WithRcode(resp: Message, rcode: u16): Message
    requires resp.Rcode() == 0 && rcode < 0x10
  {
    resp.(flags := resp.flags + rcode)
  }

  function ResponseTo(query: Message): Message {
    Message(query.id, 0x8000, query.question, [], [], [])
  }

  /** Everything responseFor decides once the OPT records are in order. */
  function AnswerQuestion(query: Message, resp: Message, payloadSize: nat, domain: Name, maxUDPPayload: int): Response
    requires resp.flags == 0x8000
  {
    if |query.question| != 1 then Response(Some(WithRcode(resp, RCODE_FORMAT_ERROR)), [])
    else
      var question := query.question[0];
      var prefix := WithoutSuffix(question.name, domain);
      if prefix.None? then Response(Some(WithRcode(resp, RCODE_NAME_ERROR)), [])
      else
        var aa := resp.(flags := 0x8400);
        if query.Opcode() != 0 then Response(Some(WithRcode(aa, RCODE_NOT_IMPLEMENTED)), [])
        else if question.typ != RRTYPE_TXT then Response(Some(WithRcode(aa, RCODE_NAME_ERROR)), [])
        else
          var payload := Base32.Decode(Upper(Join(prefix.value)));
          if payload.None? then Response(Some(WithRcode(aa, RCODE_NAME_ERROR)), [])
          else if payloadSize < maxUDPPayload then Response(Some(WithRcode(aa, RCODE_FORMAT_ERROR)), [])
          else Response(Some(aa), payload.value)
  }

  function ResponseFor(query: Message, domain: Name, maxUDPPayload: int): Response {
    var resp := ResponseTo(query);
    if query.IsResponse() then Response(None, [])
    else
      match ScanOpts(query.additional, 0, false)
      case TooManyOpts => Response(Some(WithRcode(resp.(additional := [RESPONSE_OPT]), RCODE_FORMAT_ERROR)), [])
      case BadVersion => Response(Some(resp.(additional := [BAD_VERSION_OPT])), [])
      case Advertised(size, present) =>
        AnswerQuestion(query, resp.(additional := if present then [RESPONSE_OPT] else []),
                       Max(size, 512), domain, maxUDPPayload)
  }

  method RespondTo(query: Message, domain: Name, maxUDPPayload: int) returns (r: Response)
    ensures r == ResponseFor(query, domain, maxUDPPayload)
  {
    var resp := Message(query.id, 0x8000, query.question, [], [], []);
    if query.flags / 0x8000 % 2 != 0 { return Response(None, []); }
    var payloadSize: nat := 0;
    for i := 0 to |query.additional|
      invariant resp == ResponseTo(query).(additional := resp.additional)
      invariant resp.additional == [] || resp.additional == [RESPONSE_OPT]
      invariant ScanOpts(query.additional[i..], payloadSize, resp.additional != [])
             == ScanOpts(query.additional, 0, false)
    {
      assert query.additional[i..][1..] == query.additional[i + 1..];
      var rr := query.additional[i];
      if rr.typ != RRTYPE_OPT { continue; }
      if |resp.additional| != 0 {
        return Response(Some(WithRcode(resp, RCODE_FORMAT_ERROR)), []);
      }
      resp := resp.(additional := resp.additional + [RR([], RRTYPE_OPT, 4096, 0, [])]);
      if EDNSVersion(rr) != 0 {
        resp := WithRcode(resp, 16 % 0x10);
        resp := resp.(additional := [resp.additional[0].(ttl := 16 / 0x10 * 0x0100_0000)]);
        return Response(Some(resp), []);
      }
      payloadSize := rr.class_;
    }
    assert query.additional[|query.additional|..] == [];
    if payloadSize < 512 { payloadSize := 512; }
    if |query.question| != 1 {
      return Response(Some(WithRcode(resp, RCODE_FORMAT_ERROR)), []);
    }
    var question := query.question[0];
    var prefix := TrimSuffix(question.name, domain);
    if prefix.None? {
      return Response(Some(WithRcode(resp, RCODE_NAME_ERROR)), []);
    }
    resp := resp.(flags := resp.flags + 0x0400);
    if query.Opcode() != 0 {
      return Response(Some(WithRcode(resp, RCODE_NOT_IMPLEMENTED)), []);
    }
    if question.typ != RRTYPE_TXT {
      return Response(Some(WithRcode(resp, RCODE_NAME_ERROR)), []);
    }
    var payload := Base32.Decode(Upper(Join(prefix.value)));
    if payload.None? {
      return Response(Some(WithRcode(resp, RCODE_NAME_ERROR)), []);
    }
    if payloadSize < maxUDPPayload {
      return Response(Some(WithRcode(resp, RCODE_FORMAT_ERROR)), []);
    }
    return Response(Some(resp), payload.value);
  }

  // ---------- recvLoop ----------

  /** What recvLoop makes of one query: a response to pass on, its client, and the packets for KCP. */
  datatype Received = Received(resp: Option<Message>, client: bytes, packets: seq<bytes>)

  /** The first octets of the payload, and zeros for those it lacks. */
  function ClientIDOf(payload: bytes): (id: bytes)
    ensures IsClientID(id)
  {
    if |payload| >= 8 then payload[..8] else payload + seq(8 - |payload|, _ => 0)
  }

  function Receive(query: Message, domain: Name, maxUDPPayload: int): Received {
    var r := ResponseFor(query, domain, maxUDPPayload);
    var client := ClientIDOf(r.payload);
    if |r.payload| >= CLIENT_ID_SIZE then Received(r.resp, client, PaddedPackets(r.payload[8..], 0))
    else if r.resp.Some? && r.resp.value.Rcode() == RCODE_NO_ERROR
    then Received(Some(WithRcode(r.resp.value, RCODE_NAME_ERROR)), client, [])
    else Received(r.resp, client, [])
  }

  method HandleQuery(query: Message, domain: Name, maxUDPPayload: int) returns (received: Received)
    ensures received == Receive(query, domain, maxUDPPayload)
  {
    var r := RespondTo(query, domain, maxUDPPayload);
    var resp, payload := r.resp, r.payload;
    var clientID := ClientIDOf(payload);
    var packets: seq<bytes> := [];
    if |payload| >= 8 {
      packets := ExtractPadded(payload[8..]);
    } else if resp.Some? && resp.value.Rcode() == RCODE_NO_ERROR {
      resp := Some(WithRcode(resp.value, RCODE_NAME_ERROR));
    }
    return Received(resp, clientID, packets);
  }

  // ---------- Which queries carry data ----------

  function OptRecords(rrs: seq<RR>): seq<RR> {
    if rrs == [] then []
    else (if rrs[0].typ == RRTYPE_OPT then [rrs[0]] else []) + OptRecords(rrs[1..])
  }

  /** At most one OPT record, and that of version 0. */
  predicate OptsAcceptable(rrs: seq<RR>) {
    var opts := OptRecords(rrs);
    opts == [] || (|opts| == 1 && EDNSVersion(opts[0]) == 0)
  }

  /** The UDP payload size the requester supports, as section 6.2.3 of RFC 6891 has it. */
  function AdvertisedSize(rrs: seq<RR>): nat {
    var opts := OptRecords(rrs);
    if opts == [] then 512 else Max(opts[0].class_, 512)
  }

  /** The octets encoded in a name before the domain. */
  function NamePayload(name: Name, domain: Name): Option<bytes> {
    match WithoutSuffix(name, domain)
    case None => None
    case Some(prefix) => Base32.Decode(Upper(Join(prefix)))
  }

  predicate CarriesClientID(name: Name, domain: Name) {
    var payload := NamePayload(name, domain);
    payload.Some? && |payload.value| >= CLIENT_ID_SIZE
  }

  /** A complete, well-formed query of this tunnel from a requester that can take responses of the full size. */
  predicate Acceptable(query: Message, domain: Name, maxUDPPayload: int) {
    && !query.IsResponse() && query.Opcode() == 0
    && OptsAcceptable(query.additional) && AdvertisedSize(query.additional) >= maxUDPPayload
    && |query.question| == 1 && query.question[0].typ == RRTYPE_TXT
    && CarriesClientID(query.question[0].name, domain)
  }

  /** A name that carries a ClientID needs fourteen octets before the domain. */
  lemma ClientIDNeedsRoom(name: Name, domain: Name)
    requires ValidName(name) && CarriesClientID(name, domain)
    ensures LabelsLen(domain) <= 240
  {
    hide Base32.DecodeDigits, Base32.StripNewlines;
    var k := |name| - |domain|;
    var prefix, aft := name[..k], name[k..];
    assert prefix + aft == name;
    LabelsLenConcat(prefix, aft);
    SameFoldLen(aft, domain);
    JoinLen(prefix);
    var text := Upper(Join(prefix));
    Base32.StrippedLen(text);
    Base32.EightOctets(Base32.Digits(Base32.StripNewlines(text)).value);
    assert Join([]) == [];
  }

  lemma {:induction false} OptRecordClass(rrs: seq<RR>)
    ensures AdvertisedSize(rrs) < 0x1_0000
  {
  }

  lemma {:induction false} ScanOptsMeaning(rrs: seq<RR>, size: nat, present: bool)
    ensures var opts := OptRecords(rrs);
      ScanOpts(rrs, size, present) ==
        if opts == [] then Advertised(size, present)
        else if present then TooManyOpts
        else if EDNSVersion(opts[0]) != 0 then BadVersion
        else if |opts| > 1 then TooManyOpts
        else Advertised(opts[0].class_, true)
  {
    if rrs != [] {
      if rrs[0].typ != RRTYPE_OPT {
        ScanOptsMeaning(rrs[1..], size, present);
      } else if !present && EDNSVersion(rrs[0]) == 0 {
        ScanOptsMeaning(rrs[1..], rrs[0].class_, true);
      }
    }
  }

  /** The response before its answer to a query that carries data. */
  function AcceptedResponse(query: Message): Message {
    Message(query.id, 0x8400, query.question, [], [], if OptRecords(query.additional) == [] then [] else [RESPONSE_OPT])
  }

  predicate GoodQuestion(query: Message, payloadSize: nat, domain: Name, maxUDPPayload: int) {
    && query.Opcode() == 0 && payloadSize >= maxUDPPayload
    && |query.question| == 1 && query.question[0].typ == RRTYPE_TXT
    && NamePayload(query.question[0].name, domain).Some?
  }

  /**
   * The code for a question that is refused, by the first objection to it: format error, name error, or not
   * implemented.
   */
  function QuestionCode(query: Message, payloadSize: nat, domain: Name, maxUDPPayload: int): (code: u16)
    ensures code == 1 || code == 3 || code == 4
  {
    if |query.question| != 1 then 1
    else if !Authoritative(query, domain) then 3
    else if query.Opcode() != 0 then 4
    else if query.question[0].typ != 16 || NamePayload(query.question[0].name, domain).None? then 3
    else if payloadSize < maxUDPPayload then 1
    else 3
  }

  /** There is one question, and its name is under the domain. */
  predicate Authoritative(query: Message, domain: Name) {
    && |query.question| == 1
    && var name := query.question[0].name;
       |name| >= |domain| && SameFold(name[|name| - |domain|..], domain)
  }

  function AuthorityFlag(query: Message, domain: Name): u16 {
    if Authoritative(query, domain) then 0x0400 else 0
  }

  /** Some OPT record is of a version other than 0, and it is the first one. */
  predicate BadVersionOpts(rrs: seq<RR>) {
    var opts := OptRecords(rrs);
    opts != [] && EDNSVersion(opts[0]) != 0
  }

  /** The code in the header of the response to a query that carries no data. */
  function RejectionCode(query: Message, domain: Name, maxUDPPayload: int): (code: u16)
    ensures code == 1 || code == 3 || code == 4
  {
    if BadVersionOpts(query.additional) then 3
    else if |OptRecords(query.additional)| > 1 then 1
    else QuestionCode(query, AdvertisedSize(query.additional), domain, maxUDPPayload)
  }

  lemma RcodeSet(resp: Message, rcode: u16)
    requires resp.Rcode() == 0 && rcode < 0x10
    ensures WithRcode(resp, rcode).Rcode() == rcode
  {
  }

  /** What is made of a query whose OPT records are in order. */
  function QuestionResponse(query: Message, resp: Message, payloadSize: nat, domain: Name, maxUDPPayload: int): Response
    requires resp.flags == 0x8000
  {
    if GoodQuestion(query, payloadSize, domain, maxUDPPayload)
    then Response(Some(resp.(flags := 0x8400)), NamePayload(query.question[0].name, domain).value)
    else
      var code := QuestionCode(query, payloadSize, domain, maxUDPPayload);
      Response(Some(resp.(flags := 0x8000 + AuthorityFlag(query, domain) + code)), [])
  }

  lemma AnswerQuestionMeaning(query: Message, resp: Message, payloadSize: nat, domain: Name, maxUDPPayload: int)
    requires resp.flags == 0x8000
    ensures AnswerQuestion(query, resp, payloadSize, domain, maxUDPPayload)
         == QuestionResponse(query, resp, payloadSize, domain, maxUDPPayload)
  {
  }

  function OptOf(query: Message): seq<RR> {
    if OptRecords(query.additional) == [] then []
    else [if BadVersionOpts(query.additional) then BAD_VERSION_OPT else RESPONSE_OPT]
  }

  /** The response and payload, before recvLoop looks at them, by cases on the OPT records. */
  lemma ResponseForMeaning(query: Message, domain: Name, maxUDPPayload: int)
    requires !query.IsResponse()
    ensures var r := ResponseFor(query, domain, maxUDPPayload);
      var resp := ResponseTo(query).(additional := OptOf(query));
      if BadVersionOpts(query.additional) then r == Response(Some(resp), [])
      else if !OptsAcceptable(query.additional) then r == Response(Some(resp.(flags := 0x8001)), [])
      else r == QuestionResponse(query, resp, AdvertisedSize(query.additional), domain, maxUDPPayload)
  {
    hide AnswerQuestion, QuestionResponse, ScanOpts;
    ScanOptsMeaning(query.additional, 0, false);
    var resp := ResponseTo(query).(additional := OptOf(query));
    if OptsAcceptable(query.additional) {
      AnswerQuestionMeaning(query, resp, AdvertisedSize(query.additional), domain, maxUDPPayload);
    }
  }

  lemma {:induction false} AcceptedQuery(query: Message, domain: Name, maxUDPPayload: int)
    requires Acceptable(query, domain, maxUDPPayload)
    ensures var payload := NamePayload(query.question[0].name, domain).value;
      Receive(query, domain, maxUDPPayload)
        == Received(Some(AcceptedResponse(query)), payload[..8], PaddedPackets(payload[8..], 0))
  {
    ResponseForMeaning(query, domain, maxUDPPayload);
  }

  lemma LowBits(aa: bool, code: u16)
    requires code < 0x10
    ensures (0x8000 + (if aa then 0x0400 else 0) + code) % 0x10 == code
  {
  }

  /** Where nothing else is wrong, the payload is too short. */
  lemma ShortPayload(query: Message, domain: Name, maxUDPPayload: int)
    requires !query.IsResponse() && OptsAcceptable(query.additional)
    requires GoodQuestion(query, AdvertisedSize(query.additional), domain, maxUDPPayload)
    ensures Authoritative(query, domain)
    ensures |NamePayload(query.question[0].name, domain).value| < 8 ==>
              !Acceptable(query, domain, maxUDPPayload) && RejectionCode(query, domain, maxUDPPayload) == 3
    ensures |NamePayload(query.question[0].name, domain).value| >= 8 ==> Acceptable(query, domain, maxUDPPayload)
  {
  }

  lemma PayloadUnderDomain(query: Message, domain: Name)
    requires |query.question| == 1 && NamePayload(query.question[0].name, domain).Some?
    ensures Authoritative(query, domain)
  {
  }

  lemma BadQuestion(query: Message, domain: Name, maxUDPPayload: int)
    requires OptsAcceptable(query.additional)
    requires !GoodQuestion(query, AdvertisedSize(query.additional), domain, maxUDPPayload)
    ensures !Acceptable(query, domain, maxUDPPayload)
    ensures RejectionCode(query, domain, maxUDPPayload)
         == QuestionCode(query, AdvertisedSize(query.additional), domain, maxUDPPayload)
  {
  }

  /**
   * The response to any query, in full: QR is set; AA exactly if the OPT records are in order and the one
   * question is under the domain; the code is 0 for an acceptable query and that of the first objection for
   * any other; the question is repeated; and an OPT record answers an OPT record.
   */
  function ExpectedResponse(query: Message, domain: Name, maxUDPPayload: int): Message {
    var aa := OptsAcceptable(query.additional) && Authoritative(query, domain);
    var code := if Acceptable(query, domain, maxUDPPayload) then 0 else RejectionCode(query, domain, maxUDPPayload);
    var opt := RR([], 41, 4096, if BadVersionOpts(query.additional) then 0x0100_0000 else 0, []);
    Message(query.id, 0x8000 + (if aa then 0x0400 else 0) + code, query.question, [], [],
            if OptRecords(query.additional) == [] then [] else [opt])
  }

  lemma ResponseExactly(query: Message, domain: Name, maxUDPPayload: int)
    requires query.flags < 0x8000
    ensures Receive(query, domain, maxUDPPayload).resp == Some(ExpectedResponse(query, domain, maxUDPPayload))
  {
    hide ResponseFor, QuestionCode, RejectionCode, Authoritative, PaddedPackets, Acceptable;
    ResponseForMeaning(query, domain, maxUDPPayload);
    var size := AdvertisedSize(query.additional);
    if !OptsAcceptable(query.additional) {
      RejectedOpts(query, domain, maxUDPPayload);
    } else if GoodQuestion(query, size, domain, maxUDPPayload) {
      ShortPayload(query, domain, maxUDPPayload);
    } else {
      BadQuestion(query, domain, maxUDPPayload);
      LowBits(Authoritative(query, domain), QuestionCode(query, size, domain, maxUDPPayload));
    }
  }

  lemma RejectedOpts(query: Message, domain: Name, maxUDPPayload: int)
    requires !OptsAcceptable(query.additional)
    ensures !Acceptable(query, domain, maxUDPPayload)
    ensures RejectionCode(query, domain, maxUDPPayload) == if BadVersionOpts(query.additional) then 3 else 1
  {
  }

  lemma NoPackets(query: Message, domain: Name, maxUDPPayload: int)
    requires !query.IsResponse() && !Acceptable(query, domain, maxUDPPayload)
    ensures Receive(query, domain, maxUDPPayload).packets == []
  {
    hide ResponseFor, QuestionCode, PaddedPackets;
    ResponseForMeaning(query, domain, maxUDPPayload);
  }

  lemma NoResponseToResponses(query: Message, domain: Name, maxUDPPayload: int)
    ensures query.flags >= 0x8000 ==> Receive(query, domain, maxUDPPayload).resp == None
  {
  }

  lemma RejectedQuery(query: Message, domain: Name, maxUDPPayload: int)
    requires !Acceptable(query, domain, maxUDPPayload)
    ensures var r := Receive(query, domain, maxUDPPayload);
      && r.packets == []
      && (r.resp.Some? ==> r.resp.value.Rcode() == RejectionCode(query, domain, maxUDPPayload) != RCODE_NO_ERROR)
      && (r.resp.None? <==> query.IsResponse())
  {
    hide PaddedPackets, AnswerQuestion, ScanOpts, RejectionCode, Acceptable, Authoritative;
    if !query.IsResponse() {
      NoPackets(query, domain, maxUDPPayload);
      ResponseExactly(query, domain, maxUDPPayload);
      LowBits(OptsAcceptable(query.additional) && Authoritative(query, domain),
              RejectionCode(query, domain, maxUDPPayload));
    }
  }

  /**
   * A query is answered without an error exactly when it is acceptable, and only such queries deliver
   * packets.
   */
  lemma OnlyAcceptableQueriesCarryData(query: Message, domain: Name, maxUDPPayload: int)
    ensures var r := Receive(query, domain, maxUDPPayload);
      && (r.resp.Some? && r.resp.value.Rcode() == RCODE_NO_ERROR <==> Acceptable(query, domain, maxUDPPayload))
      && (r.packets != [] ==> Acceptable(query, domain, maxUDPPayload))
      && (r.resp.None? <==> query.IsResponse())
  {
    if Acceptable(query, domain, maxUDPPayload) {
      AcceptedQuery(query, domain, maxUDPPayload);
    } else {
      RejectedQuery(query, domain, maxUDPPayload);
    }
  }

  // ---------- The shape of responses ----------

  /** Only the flags and the OPT record of a response are the server's own. */
  predicate ShapedFor(resp: Message, query: Message) {
    && resp.id == query.id && resp.question == query.question && resp.answer == [] && resp.authority == []
    && (resp.additional == [] || resp.additional == [RESPONSE_OPT] || resp.additional == [BAD_VERSION_OPT])
  }

  lemma AnswerQuestionShape(query: Message, resp: Message, payloadSize: nat, domain: Name, maxUDPPayload: int)
    requires resp.flags == 0x8000 && ShapedFor(resp, query)
    ensures var r := AnswerQuestion(query, resp, payloadSize, domain, maxUDPPayload);
      r.resp.Some? && ShapedFor(r.resp.value, query)
  {
  }

  lemma ResponseForShape(query: Message, domain: Name, maxUDPPayload: int)
    ensures var r := ResponseFor(query, domain, maxUDPPayload);
      r.resp.Some? ==> ShapedFor(r.resp.value, query)
  {
    match ScanOpts(query.additional, 0, false)
    case TooManyOpts =>
    case BadVersion =>
    case Advertised(size, present) =>
      var resp := ResponseTo(query).(additional := if present then [RESPONSE_OPT] else []);
      AnswerQuestionShape(query, resp, Max(size, 512), domain, maxUDPPayload);
  }

  lemma ReceiveShape(query: Message, domain: Name, maxUDPPayload: int)
    ensures var r := Receive(query, domain, maxUDPPayload);
      r.resp.Some? ==> ShapedFor(r.resp.value, query)
  {
    ResponseForShape(query, domain, maxUDPPayload);
  }

  // ---------- Bad EDNS versions ----------

  /** The twelve-bit code of section 6.1.3 of RFC 6891: the header has its low four bits, the OPT record the rest. */
  function ExtendedRcode(m: Message): nat {
    var opts := OptRecords(m.additional);
    m.Rcode() + if opts == [] then 0 else 16 * (opts[0].ttl / 0x100_0000)
  }

  const EXTENDED_RCODE_BAD_VERS := 16

  predicate BadVersionQuery(query: Message) {
    !query.IsResponse() && BadVersionOpts(query.additional)
  }

  /** The response that a bad version leaves recvLoop with. */
  function BadVersionReply(query: Message): Message {
    ResponseTo(query).(flags := 0x8003, additional := [BAD_VERSION_OPT])
  }

  lemma OneOpt(rr: RR)
    requires rr.typ == RRTYPE_OPT
    ensures OptRecords([rr]) == [rr] && OptRecords([]) == []
  {
    assert [rr][1..] == [];
  }

  /**
   * A bad version is not answered as it should be: responseFor does produce BADVERS, but with no payload
   * and with nothing in the low four bits, and recvLoop adds the name error to it. What is sent has the
   * extended code 19.
   */
  lemma BadVersionGarbled(query: Message, domain: Name, maxUDPPayload: int)
    requires BadVersionQuery(query)
    ensures var made := ResponseFor(query, domain, maxUDPPayload).resp;
      made.Some? && ExtendedRcode(made.value) == EXTENDED_RCODE_BAD_VERS
    ensures Receive(query, domain, maxUDPPayload).resp == Some(BadVersionReply(query))
    ensures BadVersionReply(query).Rcode() == RCODE_NAME_ERROR && ExtendedRcode(BadVersionReply(query)) == 19
  {
    ScanOptsMeaning(query.additional, 0, false);
    OneOpt(BAD_VERSION_OPT);
  }

  /**
   * Exactly these queries are answered with the record that announces a bad version, all others with an
   * extended code that is the one in the header, and none with BADVERS.
   */
  lemma BadVersionExactly(query: Message, domain: Name, maxUDPPayload: int)
    ensures var r := Receive(query, domain, maxUDPPayload).resp;
      && (r.Some? && r.value.additional == [BAD_VERSION_OPT] <==> BadVersionQuery(query))
      && (r.Some? && ExtendedRcode(r.value) != r.value.Rcode() <==> BadVersionQuery(query))
      && (r.Some? ==> ExtendedRcode(r.value) != EXTENDED_RCODE_BAD_VERS)
  {
    hide AnswerQuestion, ScanOpts;
    ReceiveShape(query, domain, maxUDPPayload);
    OneOpt(RESPONSE_OPT);
    if BadVersionQuery(query) {
      BadVersionGarbled(query, domain, maxUDPPayload);
    } else {
      GoodVersionOpt(query, domain, maxUDPPayload);
    }
  }

  lemma AnswerKeepsOpt(query: Message, resp: Message, payloadSize: nat, domain: Name, maxUDPPayload: int)
    requires resp.flags == 0x8000
    ensures var r := AnswerQuestion(query, resp, payloadSize, domain, maxUDPPayload);
      r.resp.Some? && r.resp.value.additional == resp.additional
  {
  }

  lemma GoodVersionOpt(query: Message, domain: Name, maxUDPPayload: int)
    requires !BadVersionQuery(query)
    ensures var r := Receive(query, domain, maxUDPPayload).resp;
      r.Some? ==> r.value.additional == [] || r.value.additional == [RESPONSE_OPT]
  {
    hide AnswerQuestion;
    ScanOptsMeaning(query.additional, 0, false);
    match ScanOpts(query.additional, 0, false)
    case TooManyOpts =>
    case BadVersion =>
    case Advertised(size, present) =>
      var resp := ResponseTo(query).(additional := if present then [RESPONSE_OPT] else []);
      AnswerKeepsOpt(query, resp, Max(size, 512), domain, maxUDPPayload);
  }

  /** A query with EDNS version 1. */
  lemma BadVersionExample(domain: Name, maxUDPPayload: int)
    ensures var query := Message(7, 0x0100, [Question([], RRTYPE_TXT, CLASS_IN)], [], [],
                                 [RR([], RRTYPE_OPT, 4096, 0x1_0000, [])]);
      Receive(query, domain, maxUDPPayload).resp
        == Some(Message(7, 0x8003, query.question, [], [], [RR([], RRTYPE_OPT, 4096, 0x0100_0000, [])]))
  {
    var opt := RR([], RRTYPE_OPT, 4096, 0x1_0000, []);
    var query := Message(7, 0x0100, [Question([], RRTYPE_TXT, CLASS_IN)], [], [], [opt]);
    OneOpt(opt);
    assert EDNSVersion(opt) == 1;
    BadVersionGarbled(query, domain, maxUDPPayload);
  }
}
