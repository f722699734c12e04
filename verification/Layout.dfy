/** What is on the wire, octet by octet. */
module Layout {
  import opened Bytes
  import opened Names
  import opened Messages
  import opened Writer
  import opened RoundTrip
  import opened HopLimit
  import opened Framing
  import opened Client
  import opened Server
  import opened Capacity
  import opened SendLoop
  import Base32
  import Parser
  import Txt

  // ---------- Writing ----------

  lemma WordOctets(n: u16)
    ensures U16(n) == [n / 256, n % 256] && U16s([]) == []
  {
  }

  lemma LongOctets(n: u32)
    ensures var hi, lo := n / 65536, n % 65536;
      U32(n) == [hi / 256, hi % 256, lo / 256, lo % 256]
  {
  }

  lemma TwoWords(a: u16, b: u16)
    ensures U16s([a, b]) == [a / 256, a % 256, b / 256, b % 256]
  {
    TwoU16s(a, b);
  }

  lemma SixWords(f: seq<u16>)
    requires |f| == 6
    ensures U16s(f) == [f[0] / 256, f[0] % 256, f[1] / 256, f[1] % 256, f[2] / 256, f[2] % 256,
                        f[3] / 256, f[3] % 256, f[4] / 256, f[4] % 256, f[5] / 256, f[5] % 256]
  {
    TwoWords(f[4], f[5]);
    assert f[4..] == [f[4], f[5]];
    assert f[3..][1..] == f[4..] && f[2..][1..] == f[3..] && f[1..][1..] == f[2..];
    assert U16s(f[3..]) == U16(f[3]) + U16s(f[4..]);
    assert U16s(f[2..]) == U16(f[2]) + U16s(f[3..]);
    assert U16s(f[1..]) == U16(f[1]) + U16s(f[2..]);
  }

  /** A question: its name, TYPE and CLASS. */
  lemma QuestionOctets(b: Built, q: Question)
    requires ValidLabels(q.name)
    ensures WriteQuestion(b, q).w
         == WriteName(b, q.name).w + [q.typ / 256, q.typ % 256, q.class_ / 256, q.class_ % 256]
  {
    TwoWords(q.typ, q.class_);
  }

  /** A record: its name, TYPE, CLASS, four octets of TTL, the length of its data, and the data. */
  lemma RROctets(b: Built, rr: RR)
    requires ValidLabels(rr.name) && |rr.data| < 0x1_0000
    ensures var hi, lo := rr.ttl / 65536, rr.ttl % 65536;
      WriteRR(b, rr).w
      == WriteName(b, rr.name).w + [rr.typ / 256, rr.typ % 256, rr.class_ / 256, rr.class_ % 256,
                                    hi / 256, hi % 256, lo / 256, lo % 256,
                                    |rr.data| / 256, |rr.data| % 256] + rr.data
  {
    TwoWords(rr.typ, rr.class_);
    LongOctets(rr.ttl);
    WordOctets(|rr.data|);
  }

  /** A message begins with its ID, its flags and the four counts. */
  lemma {:induction false} HeaderOctets(m: Message)
    requires ValidNames(m) && Fits(m)
    ensures var buf := WireFormat(m).value;
      |buf| >= 12
      && buf[..12] == [m.id / 256, m.id % 256, m.flags / 256, m.flags % 256,
                       |m.question| / 256, |m.question| % 256, |m.answer| / 256, |m.answer| % 256,
                       |m.authority| / 256, |m.authority| % 256, |m.additional| / 256, |m.additional| % 256]
  {
    hide Parser.ReadSections, Sound, WriteQuestions, WriteRRs, U16s;
    var b := Append(EMPTY, U16s(Fields(m)));
    SixWords(Fields(m));
    HeaderSound(m);
    SectionsReadBack(b, m);
    var buf := WireFormat(m).value;
    assert b.w <= buf && |b.w| == 12;
    assert buf[..12] == b.w;
  }

  lemma {:induction false} WriteRRsConcat(b: Built, x: seq<RR>, y: seq<RR>)
    requires WritableRRs(x) && RDataFits(x) && WritableRRs(y) && RDataFits(y)
    ensures WritableRRs(x + y) && RDataFits(x + y)
    ensures WriteRRs(b, x + y) == WriteRRs(WriteRRs(b, x), y)
    decreases |x|
  {
    if x == [] {
      assert x + y == y;
    } else {
      assert (x + y)[1..] == x[1..] + y;
      WriteRRsConcat(WriteRR(b, x[0]), x[1..], y);
    }
  }

  /** After the header come the questions, and then all records: answers, authority, additional. */
  lemma {:induction false} SectionsInOrder(m: Message)
    requires WritableNames(m) && Fits(m)
    ensures WritableRRs(m.answer + m.authority + m.additional) && RDataFits(m.answer + m.authority + m.additional)
    ensures var h := Append(EMPTY, U16s([m.id, m.flags, |m.question|, |m.answer|, |m.authority|, |m.additional|]));
      WireFormat(m) == Ok(WriteRRs(WriteQuestions(h, m.question), m.answer + m.authority + m.additional).w)
  {
    hide WriteRRs, WriteQuestions, U16s;
    var q := WriteQuestions(Append(EMPTY, U16s(Fields(m))), m.question);
    WriteRRsConcat(q, m.answer, m.authority);
    WriteRRsConcat(q, m.answer + m.authority, m.additional);
  }

  lemma {:induction false} FirstNameOctets(b: Built, name: Name)
    requires ValidLabels(name) && b.cache == map[]
    ensures WriteName(b, name).w == b.w + LabelBytes(name) + [0]
  {
    hide WriteName;
    WriteNameExactly(b, name);
    var i: nat :| Compressed(b, WriteName(b, name), name, i);
    assert i == |name| && name[..i] == name;
  }

  // ---------- Reading ----------

  /** A question is read as its name, TYPE and CLASS. */
  lemma ReadQuestionOctets(buf: bytes, pos: nat)
    requires Parser.ReadName(buf, pos).Ok? && Parser.ReadName(buf, pos).value.end + 4 <= |buf|
    ensures var n := Parser.ReadName(buf, pos).value;
      Parser.ReadQuestion(buf, pos) == Ok(Parsed(Question(n.item, Word(buf, n.end), Word(buf, n.end + 2)), n.end + 4))
  {
    hide Parser.ReadName;
    var end := Parser.ReadName(buf, pos).value.end;
    TwoTaken(buf, end);
  }

  lemma TwoTaken(buf: bytes, pos: nat)
    requires pos + 4 <= |buf|
    ensures TakeU16s(buf, pos, 2) == Ok(Parsed([Word(buf, pos), Word(buf, pos + 2)], pos + 4))
  {
    hide TakeU16;
    WordTaken(buf, pos);
    WordTaken(buf, pos + 2);
    var a, b := Word(buf, pos), Word(buf, pos + 2);
    var last := TakeU16s(buf, pos + 2, 1);
    assert last == Ok(Parsed([b], pos + 4)) by {
      assert TakeU16s(buf, pos + 4, 0) == Ok(Parsed([], pos + 4)) && [b] + [] == [b];
    }
    assert [a] + last.value.item == [a, b];
  }

  /** A record is read as its name, TYPE, CLASS, TTL, and as much data as it says. */
  lemma ReadRROctets(buf: bytes, pos: nat)
    requires Parser.ReadName(buf, pos).Ok? && Parser.ReadName(buf, pos).value.end + 10 <= |buf|
    requires var e := Parser.ReadName(buf, pos).value.end;
      e + 10 + Word(buf, e + 8) <= |buf|
    ensures var n, e := Parser.ReadName(buf, pos).value.item, Parser.ReadName(buf, pos).value.end;
      var end := e + 10 + Word(buf, e + 8);
      Parser.ReadRR(buf, pos)
        == Ok(Parsed(RR(n, Word(buf, e), Word(buf, e + 2), Word(buf, e + 4) * 65536 + Word(buf, e + 6),
                        buf[e + 10..end]), end))
  {
    hide Parser.ReadName, TakeU16, TakeU32, TakeU16s, Word;
    var e := Parser.ReadName(buf, pos).value.end;
    TwoTaken(buf, e);
    LongTaken(buf, e + 4);
    WordTaken(buf, e + 8);
    assert buf[e + 10..e + 10] == [];
  }

  // ---------- What the client sends ----------

  /** No piece is empty or longer than n, and all but the last have the full length. */
  predicate FullPieces(cs: seq<bytes>, n: nat) {
    forall i :: 0 <= i < |cs| ==> 0 < |cs[i]| <= n && (i < |cs| - 1 ==> |cs[i]| == n)
  }

  lemma {:induction false} ChunksFull(p: bytes, n: nat)
    requires n > 0
    ensures FullPieces(Chunks(p, n), n)
  {
    if |p| > n { ChunksFull(p[n..], n); }
  }

  /** The data of a query in lower-case base32, in labels of 63 and a shorter last one, before the domain. */
  predicate CarriesData(name: Name, data: bytes, domain: Name) {
    |name| >= |domain|
    && var k := |name| - |domain|;
       && name[k..] == domain && Join(name[..k]) == Lower(Base32.Encode(data))
       && forall i :: 0 <= i < k ==> 0 < |name[i]| <= 63 && (i < k - 1 ==> |name[i]| == 63)
  }

  lemma DataNameShape(data: bytes, domain: Name)
    ensures CarriesData(DataName(data, domain), data, domain)
  {
    hide Base32.Encode, Chunks;
    var text := Lower(Base32.Encode(data));
    ChunksJoin(text, 63);
    ChunksFull(text, 63);
    var name, k := DataName(data, domain), |Chunks(text, 63)|;
    assert name[..k] == Chunks(text, 63) && name[k..] == domain;
  }

  /** The client's datagram for a name: ID, RD and nothing else, one question of type TXT, one OPT record of 4096. */
  predicate AsksFor(buf: bytes, queryID: u16, name: Name)
    requires ValidLabels(name)
  {
    buf == [queryID / 256, queryID % 256, 1, 0, 0, 1, 0, 0, 0, 0, 0, 1]
           + LabelBytes(name) + [0] + [0, 16, 0, 1]
           + [0, 0, 41, 16, 0, 0, 0, 0, 0, 0, 0]
  }

  lemma OptOctets(b: Built)
    ensures WriteRR(b, REQUEST_OPT).w == b.w + [0, 0, 41, 16, 0, 0, 0, 0, 0, 0, 0]
  {
    hide U16s, WriteName, WriteRR;
    RROctets(b, REQUEST_OPT);
    RootOctet(b);
  }

  lemma QuestionAndOpt(h: Built, name: Name)
    requires ValidName(name) && h.cache == map[]
    ensures var q := Question(name, RRTYPE_TXT, CLASS_IN);
      WriteRRs(WriteQuestions(h, [q]), [REQUEST_OPT]).w
      == h.w + LabelBytes(name) + [0] + [0, 16, 0, 1] + [0, 0, 41, 16, 0, 0, 0, 0, 0, 0, 0]
  {
    hide WriteName, WriteQuestion, WriteRR, LabelBytes, U16s, WriteQuestions, WriteRRs;
    var q := Question(name, RRTYPE_TXT, CLASS_IN);
    OneQuestion(h, q);
    FirstNameOctets(h, name);
    QuestionOctets(h, q);
    OneRR(WriteQuestion(h, q), REQUEST_OPT);
    OptOctets(WriteQuestion(h, q));
  }

  lemma QueryFits(queryID: u16, name: Name)
    requires ValidName(name)
    ensures ValidNames(Query(queryID, name)) && Fits(Query(queryID, name))
  {
  }

  lemma QueryHeader(queryID: u16)
    ensures U16s([queryID, 0x0100, 1, 0, 0, 1]) == [queryID / 256, queryID % 256, 1, 0, 0, 1, 0, 0, 0, 0, 0, 1]
  {
    SixWords([queryID, 0x0100, 1, 0, 0, 1]);
  }

  lemma {:induction false} QueryOctets(queryID: u16, name: Name)
    requires ValidName(name)
    ensures var m := Query(queryID, name);
      ValidNames(m) && Fits(m) && WireFormat(m).Ok? && AsksFor(WireFormat(m).value, queryID, name)
  {
    hide WriteMessage, LabelBytes, U16s, WriteQuestions, WriteRRs, ValidNames, Fits;
    var m := Query(queryID, name);
    QueryFits(queryID, name);
    SectionsInOrder(m);
    QueryHeader(queryID);
    QuestionAndOpt(Append(EMPTY, U16s([queryID, 0x0100, 1, 0, 0, 1])), name);
    assert m.answer + m.authority + m.additional == [REQUEST_OPT];
  }

  lemma RootOctet(b: Built)
    ensures WriteName(b, []).w == b.w + [0]
  {
  }

  /** The ClientID, a padding octet, as much padding as it says, and, unless this is a poll, length and packet. */
  function SentData(id: bytes, padding: bytes, p: bytes): bytes
    requires |padding| <= 8 && |p| < 224
  {
    id + [224 + |padding|] + padding + if p == [] then [] else [|p|] + p
  }

  /**
   * send refuses packets of 224 octets and more, and data that makes no valid name. Anything else becomes
   * exactly the octets of a query for a name that carries the data.
   */
  lemma {:induction false} SentOctets(id: bytes, padding: bytes, p: bytes, domain: Name, queryID: u16)
    requires |padding| == if p == [] then 8 else 3
    ensures var r := SendResult(id, padding, p, domain, queryID);
      if |p| >= 224 then r == Err(PacketTooLong)
      else
        && (r.Ok? <==> ValidName(DataName(SentData(id, padding, p), domain)))
        && (r.Ok? ==> exists name ::
              ValidName(name) && CarriesData(name, SentData(id, padding, p), domain) && AsksFor(r.value, queryID, name))
  {
    hide WireFormat, DataName, CarriesData, Query, AsksFor;
    if |p| < 224 {
      var data := SentData(id, padding, p);
      assert data == QueryData(id, padding, p);
      var name := DataName(data, domain);
      CheckNameIffValid(name);
      DataNameShape(data, domain);
      if ValidName(name) { QueryOctets(queryID, name); }
    }
  }

  // ---------- What the server sends ----------

  /** The completed response: the query's question answered with a TXT record of TTL 60 in the question's class. */
  lemma {:induction false} OutgoingExactly(cfg: Config, e: Sent)
    requires RecordOk(cfg, e.rec) && e.rec.CarriesData()
    ensures var query := e.rec.query;
      |query.question| == 1
      && var q := query.question[0];
         Outgoing(e) == Message(query.id, 0x8400, [q],
                                [RR(q.name, 16, q.class_, 60, Txt.EncodeTXT(Frame(e.packets)))], [],
                                if OptRecords(query.additional) == [] then [] else [RR([], 41, 4096, 0, [])])
  {
    hide Receive;
    RecordResponse(cfg, e.rec);
    assert e.rec.query.question == [e.rec.query.question[0]];
  }

  /** A record without data goes out as it is. */
  lemma OtherOutgoing(e: Sent)
    requires !e.rec.CarriesData()
    ensures Outgoing(e) == e.rec.resp
  {
  }

  /** A message is sent as it is, or, if it is too long, cut to maxUDPPayload and with the TC bit set. */
  lemma {:induction false} TransmittedExactly(cfg: Config, m: Message)
    requires cfg.maxUDPPayload >= 3 && ValidNames(m) && Fits(m)
    ensures var wire, sent := WireFormat(m).value, Transmitted(cfg, m);
      && sent.Some?
      && (|wire| <= cfg.maxUDPPayload ==> sent.value == wire)
      && (|wire| > cfg.maxUDPPayload ==>
            && |sent.value| == cfg.maxUDPPayload
            && (forall i :: 0 <= i < |sent.value| && i != 2 ==> sent.value[i] == wire[i])
            && sent.value[2] / 2 % 2 == 1 && sent.value[2] / 4 == wire[2] / 4 && sent.value[2] % 2 == wire[2] % 2)
  {
    hide WriteMessage;
  }
}
