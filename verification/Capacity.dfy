/** How much downstream payload a response can carry: exact response sizes and the binary search over them. */
module Capacity {
  import opened Bytes
  import opened Names
  import opened Messages
  import opened Writer
  import opened WireSizes
  import opened Server
  import Builder
  import Txt

  // ---------- Exact response sizes ----------

  /** A response as sendLoop completes it. */
  function DataResponse(resp: Message, payload: bytes): Message
    requires |resp.question| == 1
  {
    var q := resp.question[0];
    resp.(answer := [RR(q.name, q.typ, q.class_, RESPONSE_TTL, Txt.EncodeTXT(payload))])
  }

  /** One question, no records but perhaps an OPT: what responseFor leaves for sendLoop to fill in. */
  predicate Fillable(resp: Message) {
    && |resp.question| == 1 && ValidName(resp.question[0].name)
    && resp.answer == [] && resp.authority == []
    && (resp.additional == [] || resp.additional == [RESPONSE_OPT])
  }

  function ResponseLen(resp: Message, payloadLen: nat): nat
    requires |resp.question| == 1
  {
    var name := resp.question[0].name;
    12 + NameLen(name) + 4 + RepeatedLen(name) + 10 + Txt.TXTLen(payloadLen) + 11 * |resp.additional|
  }

  lemma DataResponseWritable(resp: Message, payload: bytes)
    requires Fillable(resp) && Txt.TXTLen(|payload|) < 0x1_0000
    ensures ValidNames(DataResponse(resp, payload)) && Fits(DataResponse(resp, payload))
  {
    Txt.EncodedTXTLen(payload);
  }

  lemma OneQuestion(b: Built, q: Question)
    requires ValidName(q.name)
    ensures WriteQuestions(b, [q]) == WriteQuestion(b, q)
  {
    assert [q][1..] == [];
  }

  lemma OneRR(b: Built, rr: RR)
    requires ValidName(rr.name) && |rr.data| < 0x1_0000
    ensures WriteRRs(b, [rr]) == WriteRR(b, rr)
  {
    assert [rr][1..] == [];
  }

  /** The OPT record always takes eleven octets. */
  lemma OptLen(b: Built, rrs: seq<RR>)
    requires rrs == [] || rrs == [RESPONSE_OPT]
    ensures ValidRRs(rrs) && RDataFits(rrs)
    ensures |WriteRRs(b, rrs).w| == |b.w| + 11 * |rrs|
  {
    if rrs != [] {
      OneRR(b, RESPONSE_OPT);
      RepeatedName(b, []);
    }
  }

  lemma QuestionThenAnswerLen(b: Built, q: Question, rr: RR)
    requires ValidName(q.name) && rr.name == q.name && |rr.data| < 0x1_0000
    requires b.cache == map[] && |b.w| <= MAX_POINTER_TARGET
    ensures |WriteRR(WriteQuestion(b, q), rr).w| == |b.w| + NameLen(q.name) + 4 + RepeatedLen(q.name) + 10 + |rr.data|
  {
    FirstName(b, q.name);
    RepeatedName(WriteQuestion(b, q), q.name);
  }

  /** The size of a completed response, exactly: the answer's name is a pointer, or the root again. */
  lemma DataResponseLen(resp: Message, payload: bytes)
    requires Fillable(resp) && Txt.TXTLen(|payload|) < 0x1_0000
    ensures ValidNames(DataResponse(resp, payload)) && Fits(DataResponse(resp, payload))
    ensures |WireFormat(DataResponse(resp, payload)).value| == ResponseLen(resp, |payload|)
  {
    DataResponseWritable(resp, payload);
    Txt.EncodedTXTLen(payload);
    var m := DataResponse(resp, payload);
    var b := Append(EMPTY, U16s(Fields(m)));
    var q, rr := m.question[0], m.answer[0];
    OneQuestion(b, q);
    OneRR(WriteQuestion(b, q), rr);
    assert m.question == [q] && m.answer == [rr];
    QuestionThenAnswerLen(b, q, rr);
    var answered := WriteRR(WriteQuestion(b, q), rr);
    OptLen(answered, m.additional);
    assert WriteMessage(EMPTY, m) == WriteRRs(WriteRRs(answered, []), m.additional);
  }

  // ---------- The worst case ----------

  function A(n: nat): (l: Label)
    ensures |l| == n
  {
    seq(n, _ => 65)
  }

  /** 64 + 64 + 64 + 62 octets, and one for the terminator. */
  function MaxLengthName(): (n: Name)
    ensures ValidName(n) && NameLen(n) == 255
  {
    var n := [A(63), A(63), A(63), A(61)];
    assert LabelsLen([A(61)]) == 62 by { assert [A(61)][1..] == []; }
    assert LabelsLen([A(63), A(61)]) == 126 by { assert [A(63), A(61)][1..] == [A(61)]; }
    assert LabelsLen([A(63), A(63), A(61)]) == 190 by { assert [A(63), A(63), A(61)][1..] == [A(63), A(61)]; }
    assert n[1..] == [A(63), A(63), A(61)];
    n
  }

  function WorstQuery(limit: int): Message {
    var queryLimit: u16 := if 0 <= limit < 0x1_0000 then limit else 0xffff;
    Message(0, 0, [Question(MaxLengthName(), RRTYPE_TXT, RRTYPE_TXT)], [], [], [RR([], RRTYPE_OPT, queryLimit, 0, [])])
  }

  /** The response to the longest possible query, before its answer. */
  function WorstResponse(limit: int): (r: Message)
    ensures Fillable(r) && r.additional == [RESPONSE_OPT] && NameLen(r.question[0].name) == 255
  {
    var q := WorstQuery(limit);
    assert q.additional[1..] == [];
    assert EDNSVersion(q.additional[0]) == 0;
    assert ScanOpts([], q.additional[0].class_, true) == Advertised(q.additional[0].class_, true);
    assert ScanOpts(q.additional, 0, false) == Advertised(q.additional[0].class_, true);
    ResponseFor(q, [], limit).resp.value
  }

  /** The size of the largest response that carries n octets. */
  function WorstLen(n: nat): nat {
    294 + Txt.TXTLen(n)
  }

  lemma {:induction false} WorstResponseLen(limit: int, payload: bytes)
    requires |payload| < 32768
    ensures ValidNames(DataResponse(WorstResponse(limit), payload)) && Fits(DataResponse(WorstResponse(limit), payload))
    ensures |WireFormat(DataResponse(WorstResponse(limit), payload)).value| == WorstLen(|payload|)
  {
    DataResponseLen(WorstResponse(limit), payload);
  }

  /** Any response that carries as much is at most as long as the worst case. */
  lemma NoLongerThanWorst(resp: Message, payload: bytes)
    requires Fillable(resp) && |payload| < 32768
    ensures ValidNames(DataResponse(resp, payload)) && Fits(DataResponse(resp, payload))
    ensures |WireFormat(DataResponse(resp, payload)).value| <= WorstLen(|payload|)
  {
    DataResponseLen(resp, payload);
  }

  /** n is the greatest payload size below 32768 whose worst case is within the limit, or 0 if there is none. */
  predicate IsMaxPayload(n: nat, limit: int) {
    && n < 32768
    && (n > 0 ==> WorstLen(n) <= limit)
    && forall k :: n < k < 32768 ==> WorstLen(k) > limit
  }

  lemma MaxPayloadUnique(m: nat, n: nat, limit: int)
    requires IsMaxPayload(m, limit) && IsMaxPayload(n, limit)
    ensures m == n
  {
  }

  /** One trial of the search: the size of the worst-case response to a payload of n octets. */
  method TrialLen(resp: Message, ghost limit: int, n: nat) returns (size: nat)
    requires resp == WorstResponse(limit) && n < 32768
    ensures size == WorstLen(n)
  {
    hide WriteMessage, ResponseFor, Txt.TXTLen;
    var zeros: bytes := seq(n, _ => 0);
    var data := Txt.EncodeRDataTXT(zeros);
    var question := resp.question[0];
    var m := resp.(answer := [RR(question.name, question.typ, question.class_, RESPONSE_TTL, data)]);
    assert m == DataResponse(resp, zeros);
    WorstResponseLen(limit, zeros);
    var buf := Builder.ToWireFormat(m);
    size := |buf.value|;
  }

  method ComputeMaxEncodedPayload(limit: int) returns (low: nat)
    ensures IsMaxPayload(low, limit)
  {
    var r := RespondTo(WorstQuery(limit), [], limit);
    var resp := r.resp.value;
    low := 0;
    var high := 32768;
    while low + 1 < high
      invariant 0 <= low < high <= 32768
      invariant low > 0 ==> WorstLen(low) <= limit
      invariant forall k :: high <= k < 32768 ==> WorstLen(k) > limit
    {
      var mid := (low + high) / 2;
      var size := TrialLen(resp, limit, mid);
      if size <= limit {
        low := mid;
      } else {
        high := mid;
        forall k | mid <= k < 32768 ensures WorstLen(k) > limit {
          if k > mid { Txt.TXTLenIncreases(mid, k); }
        }
      }
    }
  }

  /** The packet size limit that the server gives to KCP; run refuses the configuration if it is below 80. */
  function ServerMTU(maxEncodedPayload: nat): int {
    maxEncodedPayload - 2
  }
}
