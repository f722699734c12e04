/** Beyond the client's buffer: for every other configuration, a run in which a packet is lost. */
module LongResponses {
  import opened Bytes
  import opened Names
  import opened Messages
  import opened Writer
  import opened HopLimit
  import opened Framing
  import opened Client
  import opened Server
  import opened Capacity
  import opened SendLoop
  import opened Delivery
  import opened Responses
  import Base32
  import Parser
  import Txt

  /** Responses can outgrow the client's buffer. */
  predicate Outgrows(cfg: Config) {
    cfg.Accepted() && ValidName(cfg.domain) && !FitsClient(cfg)
  }

  // ---------- The longest name under a domain ----------

  /** Labels of the letter A that take up r octets, but never with fourteen letters. */
  function LettersA(r: nat): (n: Name)
    requires r >= 2
    ensures ValidLabels(n) && LabelsLen(n) == r
  {
    if r == 15 then
      assert [A(6), A(7)][1..] == [A(7)] && [A(7)][1..] == [];
      [A(6), A(7)]
    else if r <= 64 then
      assert [A(r - 1)][1..] == [];
      [A(r - 1)]
    else if r == 65 then
      assert [A(31), A(32)][1..] == [A(32)] && [A(32)][1..] == [];
      [A(31), A(32)]
    else
      assert ([A(63)] + LettersA(r - 64))[1..] == LettersA(r - 64);
      [A(63)] + LettersA(r - 64)
  }

  lemma {:induction false} LettersAJoin(r: nat)
    requires r >= 2
    ensures forall i :: 0 <= i < |Join(LettersA(r))| ==> Join(LettersA(r))[i] == 65
    ensures r >= 14 ==> |Join(LettersA(r))| >= 13 && |Join(LettersA(r))| != 14
  {
    assert Join([]) == [];
    if r == 15 {
      assert [A(6), A(7)][1..] == [A(7)] && [A(7)][1..] == [];
      assert Join([A(7)]) == A(7) + Join([]) && Join([A(6), A(7)]) == A(6) + Join([A(7)]);
    } else if r <= 64 {
      assert [A(r - 1)][1..] == [] && Join([A(r - 1)]) == A(r - 1) + Join([]);
    } else if r == 65 {
      assert [A(31), A(32)][1..] == [A(32)] && [A(32)][1..] == [];
      assert Join([A(32)]) == A(32) + Join([]) && Join([A(31), A(32)]) == A(31) + Join([A(32)]);
    } else {
      LettersAJoin(r - 64);
      assert ([A(63)] + LettersA(r - 64))[1..] == LettersA(r - 64);
      assert Join(LettersA(r)) == A(63) + Join(LettersA(r - 64));
    }
  }

  lemma LettersADecode(text: bytes)
    requires |text| >= 13 && |text| != 14 && forall i :: 0 <= i < |text| ==> text[i] == 65
    ensures Base32.Decode(Upper(text)).Some? && |Base32.Decode(Upper(text)).value| >= 8
  {
    assert Upper(text) == text;
    Base32.NothingToStrip(text);
    assert Base32.Digits(text).Some? by {
      assert forall i :: 0 <= i < |text| ==> Base32.DigitOf(text[i]) == Some(0);
    }
    Base32.EightOctets(Base32.Digits(text).value);
  }

  function LongName(domain: Name): (name: Name)
    requires ValidLabels(domain) && LabelsLen(domain) <= 240
    ensures ValidName(name) && NameLen(name) == 255
  {
    var prefix := LettersA(254 - LabelsLen(domain));
    LabelsLenConcat(prefix, domain);
    prefix + domain
  }

  lemma LongNameCarries(domain: Name)
    requires ValidLabels(domain) && LabelsLen(domain) <= 240
    ensures CarriesClientID(LongName(domain), domain)
  {
    hide Base32.Decode;
    var prefix, name := LettersA(254 - LabelsLen(domain)), LongName(domain);
    assert SameFold(name, prefix + domain);
    SuffixOfFolded(prefix, domain, name);
    assert name[..|prefix|] == prefix;
    LettersAJoin(254 - LabelsLen(domain));
    LettersADecode(Join(prefix));
  }

  // ---------- A query that leaves the least room ----------

  /** Its name is the longest possible, and it announces just what the server asks for. */
  function LongQuery(cfg: Config): (m: Message)
    requires Outgrows(cfg)
    ensures ValidNames(m) && Fits(m)
  {
    Message(0, 0x0100, [Question(LongName(cfg.domain), RRTYPE_TXT, CLASS_IN)], [], [],
            [RR([], RRTYPE_OPT, cfg.maxUDPPayload, 0, [])])
  }

  lemma LongQueryAccepted(cfg: Config)
    requires Outgrows(cfg)
    ensures Acceptable(LongQuery(cfg), cfg.domain, cfg.maxUDPPayload)
  {
    hide CarriesClientID;
    var query := LongQuery(cfg);
    OneOpt(query.additional[0]);
    assert EDNSVersion(query.additional[0]) == 0;
    LongNameCarries(cfg.domain);
  }

  /** The query's datagram. */
  function LongDatagram(cfg: Config): (buf: bytes)
    requires Outgrows(cfg)
    ensures |buf| <= DATAGRAM_SIZE && Parser.Parse(buf) == Ok(LongQuery(cfg))
  {
    var m := LongQuery(cfg);
    SmallMessageRoundTrip(m);
    LongQueryShort(cfg);
    WireFormat(m).value
  }

  lemma LongQueryShort(cfg: Config)
    requires Outgrows(cfg)
    ensures |WireFormat(LongQuery(cfg)).value| <= DATAGRAM_SIZE
  {
    var m := LongQuery(cfg);
    CompressionNeverLonger(m);
    assert m.question[1..] == [] && m.additional[1..] == [];
    assert QuestionsLen(m.question) == NameLen(LongName(cfg.domain)) + 4 + QuestionsLen([]);
    assert RRsLen(m.additional) == NameLen([]) + 10 + RRsLen([]);
  }

  /** What recvLoop makes of it. */
  function LongRecord(cfg: Config, addr: bytes): (rec: Record)
    requires Outgrows(cfg)
    ensures RecordOk(cfg, rec) && rec.CarriesData() && rec.addr == addr
    ensures rec.resp == AcceptedResponse(LongQuery(cfg)) && rec.query == LongQuery(cfg)
  {
    LongQueryAccepted(cfg);
    AcceptedQuery(LongQuery(cfg), cfg.domain, cfg.maxUDPPayload);
    var r := Receive(LongQuery(cfg), cfg.domain, cfg.maxUDPPayload);
    Record(r.resp.value, addr, r.client, LongQuery(cfg))
  }

  // ---------- The run ----------

  /** The largest packet that KCP may emit. */
  function FullPacket(cfg: Config): (p: bytes)
    requires cfg.Accepted()
    ensures |p| == cfg.maxEncodedPayload - 2 == ServerMTU(cfg.maxEncodedPayload) && |p| > 0
  {
    seq(cfg.maxEncodedPayload - 2, _ => 0)
  }

  lemma RunStep(cfg: Config, before: seq<Event>, e: Event)
    ensures Run(cfg, before + [e]) == Step(cfg, Run(cfg, before), e)
  {
    assert (before + [e])[..|before|] == before;
  }

  /** The server accepts a packet for the client and then a query from it. */
  function Arrivals(cfg: Config, addr: bytes): seq<Event>
    requires Outgrows(cfg)
  {
    [] + [WriteTo(LongRecord(cfg, addr).client, FullPacket(cfg))] + [Datagram(LongDatagram(cfg), addr)]
  }

  /** The send loop takes the query and bundles the packet. */
  function Bundling(cfg: Config, addr: bytes): seq<Event>
    requires Outgrows(cfg)
  {
    Arrivals(cfg, addr)
    + [LoopStep(FromRecords)] + [LoopStep(FromStash)] + [LoopStep(FromStash)] + [LoopStep(FromQueue)]
  }

  /** It finds no more packets, and its timer expires. */
  function LossyRun(cfg: Config, addr: bytes): seq<Event>
    requires Outgrows(cfg)
  {
    Bundling(cfg, addr) + [LoopStep(FromStash)] + [LoopStep(FromStash)] + [LoopStep(TimerExpired)]
  }

  /** recvLoop passes the query on. */
  lemma QueryPassedOn(cfg: Config, s: State, addr: bytes)
    requires Outgrows(cfg) && s.ch == []
    ensures var rec := LongRecord(cfg, addr);
      Step(cfg, s, Datagram(LongDatagram(cfg), addr)) == s.(ch := [rec], offered := s.offered + [rec])
  {
    hide Receive, Parser.Parse, LongDatagram, LongQuery, AcceptedResponse, Outgrows, Record.CarriesData;
    var buf := LongDatagram(cfg);
    assert Buffered(buf, DATAGRAM_SIZE) == buf;
  }

  lemma FirstPacket(cfg: Config, c: bytes, p: bytes)
    ensures Run(cfg, [] + [WriteTo(c, p)]) == State(map[c := [p]], map[], [], Top(None), map[c := [p]], [], [])
  {
    RunStep(cfg, [], WriteTo(c, p));
    assert [] + [p] == [p] && map[][c := [p]] == map[c := [p]];
  }

  lemma AfterArrivals(cfg: Config, addr: bytes)
    requires Outgrows(cfg)
    ensures var rec, p := LongRecord(cfg, addr), FullPacket(cfg);
      Run(cfg, Arrivals(cfg, addr))
        == State(map[rec.client := [p]], map[], [rec], Top(None), map[rec.client := [p]], [rec], [])
  {
    hide Step, Run, LongDatagram, LongRecord, LongQuery, FullPacket;
    hide Config.Accepted, FitsClient, RecordOk, AcceptedResponse;
    var p, c := FullPacket(cfg), LongRecord(cfg, addr).client;
    FirstPacket(cfg, c, p);
    QueryPassedOn(cfg, Run(cfg, [] + [WriteTo(c, p)]), addr);
    RunStep(cfg, [] + [WriteTo(c, p)], Datagram(LongDatagram(cfg), addr));
  }

  /** Four steps of the loop, from a record in the channel to a packet in its bundle. */
  lemma PacketBundled(cfg: Config, s: State, rec: Record, p: bytes)
    requires rec.CarriesData() && 0 < |p| < 0x1_0000 && cfg.maxEncodedPayload == |p| + 2
    requires s.queues == map[rec.client := [p]] && s.ch == [rec] && s.loop == Top(None)
    requires Of(s.stashes, rec.client) == []
    ensures var s1 := Step(cfg, s, LoopStep(FromRecords));
      var s2 := Step(cfg, s1, LoopStep(FromStash));
      Step(cfg, Step(cfg, s2, LoopStep(FromStash)), LoopStep(FromQueue))
         == s.(queues := map[rec.client := []], ch := [], loop := Selecting(Probe, Bundle(rec, [p], 0, LIVE)))
  {
    hide Record.CarriesData;
    var b := Bundle(rec, [], cfg.maxEncodedPayload, LIVE);
    var s1 := s.(ch := [], loop := Selecting(Open, b));
    assert Step(cfg, s, LoopStep(FromRecords)) == s1;
    var s2 := s1.(loop := Selecting(Probe, b));
    assert Step(cfg, s1, LoopStep(FromStash)) == s2;
    assert Step(cfg, s2, LoopStep(FromStash)) == s2.(loop := Selecting(Poll, b));
    assert [p][1..] == [] && [] + [p] == [p] && s.queues[rec.client := []] == map[rec.client := []];
  }

  lemma AfterBundling(cfg: Config, addr: bytes)
    requires Outgrows(cfg)
    ensures var rec, p := LongRecord(cfg, addr), FullPacket(cfg);
      Run(cfg, Bundling(cfg, addr))
        == State(map[rec.client := []], map[], [], Selecting(Probe, Bundle(rec, [p], 0, LIVE)),
                 map[rec.client := [p]], [rec], [])
  {
    hide Step, Arrivals, LongRecord, AcceptedResponse, LongQuery, Record.CarriesData, RecordOk, FullPacket;
    var e0 := Arrivals(cfg, addr);
    AfterArrivals(cfg, addr);
    PacketBundled(cfg, Run(cfg, e0), LongRecord(cfg, addr), FullPacket(cfg));
    var e1 := e0 + [LoopStep(FromRecords)];
    RunStep(cfg, e0, LoopStep(FromRecords));
    var e2 := e1 + [LoopStep(FromStash)];
    RunStep(cfg, e1, LoopStep(FromStash));
    RunStep(cfg, e2, LoopStep(FromStash));
    RunStep(cfg, e2 + [LoopStep(FromStash)], LoopStep(FromQueue));
  }

  lemma AfterLossyRun(cfg: Config, addr: bytes)
    requires Outgrows(cfg)
    ensures var rec, p := LongRecord(cfg, addr), FullPacket(cfg);
      Run(cfg, LossyRun(cfg, addr))
        == State(map[rec.client := []], map[], [], Top(None), map[rec.client := [p]], [rec], [Sent(rec, [p])])
  {
    hide Receive, Parser.Parse, Bundling, LongRecord, FullPacket, RecordOk, AcceptedResponse, LongQuery;
    hide Config.Accepted, FitsClient, Record.CarriesData;
    var rec, p, e3 := LongRecord(cfg, addr), FullPacket(cfg), Bundling(cfg, addr);
    AfterBundling(cfg, addr);
    var b := Bundle(rec, [p], 0, LIVE);
    var s3 := State(map[rec.client := []], map[], [], Selecting(Probe, b), map[rec.client := [p]], [rec], []);
    var e4 := e3 + [LoopStep(FromStash)];
    RunStep(cfg, e3, LoopStep(FromStash));
    var e5 := e4 + [LoopStep(FromStash)];
    RunStep(cfg, e4, LoopStep(FromStash));
    assert Run(cfg, e5) == s3.(loop := Selecting(Wait, b));
    RunStep(cfg, e5, LoopStep(TimerExpired));
    assert [] + [Sent(rec, [p])] == [Sent(rec, [p])];
  }

  // ---------- Within the hypotheses ----------

  /** KCP keeps to its limit, and the client's record stays in the map. */
  predicate Harmless(cfg: Config, events: seq<Event>, c: bytes) {
    AllWithinMTU(cfg, events) && NeverExpires(events, c)
  }

  lemma HarmlessAppended(cfg: Config, events: seq<Event>, e: Event, c: bytes)
    requires Harmless(cfg, events, c) && WithinMTU(cfg, e) && !e.Expire?
    ensures Harmless(cfg, events + [e], c)
  {
  }

  lemma LossyRunHarmless(cfg: Config, addr: bytes)
    requires Outgrows(cfg)
    ensures Harmless(cfg, LossyRun(cfg, addr), LongRecord(cfg, addr).client)
  {
    hide LongDatagram, LongRecord, RecordOk, AcceptedResponse, LongQuery;
    var c := LongRecord(cfg, addr).client;
    assert Harmless(cfg, [], c);
    hide Harmless;
    HarmlessAppended(cfg, [], WriteTo(c, FullPacket(cfg)), c);
    HarmlessAppended(cfg, [] + [WriteTo(c, FullPacket(cfg))], Datagram(LongDatagram(cfg), addr), c);
    var e0 := Arrivals(cfg, addr);
    HarmlessAppended(cfg, e0, LoopStep(FromRecords), c);
    var e1 := e0 + [LoopStep(FromRecords)];
    HarmlessAppended(cfg, e1, LoopStep(FromStash), c);
    HarmlessAppended(cfg, e1 + [LoopStep(FromStash)], LoopStep(FromStash), c);
    HarmlessAppended(cfg, e1 + [LoopStep(FromStash)] + [LoopStep(FromStash)], LoopStep(FromQueue), c);
    var e3 := Bundling(cfg, addr);
    HarmlessAppended(cfg, e3, LoopStep(FromStash), c);
    HarmlessAppended(cfg, e3 + [LoopStep(FromStash)], LoopStep(FromStash), c);
    HarmlessAppended(cfg, e3 + [LoopStep(FromStash)] + [LoopStep(FromStash)], LoopStep(TimerExpired), c);
  }

  // ---------- The loss ----------

  /** With more than 4096 octets to fill, the largest response takes more. */
  lemma FullResponseLong(cfg: Config)
    requires cfg.Accepted() && cfg.maxUDPPayload > RESPONSE_BUFFER
    ensures WorstLen(cfg.maxEncodedPayload) > RESPONSE_BUFFER
  {
    assert WorstLen(3788) == 4097;
    assert cfg.maxEncodedPayload >= 3788;
    if cfg.maxEncodedPayload > 3788 { Txt.TXTLenIncreases(3788, cfg.maxEncodedPayload); }
  }

  lemma LongResponseUnread(cfg: Config, addr: bytes)
    requires Outgrows(cfg)
    ensures var e := Sent(LongRecord(cfg, addr), [FullPacket(cfg)]);
      ValidNames(Outgoing(e)) && DecodedBy(cfg, e) == []
  {
    hide Receive, Parser.Parse, LongRecord, FullPacket, LongName;
    var p, n := FullPacket(cfg), cfg.maxEncodedPayload;
    var e := Sent(LongRecord(cfg, addr), [p]);
    assert e.packets[1..] == [] && FrameLen(e.packets) == n;
    FrameSize(e.packets);
    DataResponseSent(cfg, e);
    RecordResponse(cfg, e.rec);
    OneOpt(RR([], RRTYPE_OPT, cfg.maxUDPPayload, 0, []));
    DataResponseLen(e.rec.resp, Frame(e.packets));
    FullResponseLong(cfg);
  }

  /** A packet is accepted, sent and no longer held, and the client extracts nothing. */
  lemma LongResponseLost(cfg: Config, addr: bytes)
    requires Outgrows(cfg)
    ensures var events, c := LossyRun(cfg, addr), LongRecord(cfg, addr).client;
      && AllWithinMTU(cfg, events) && NeverExpires(events, c)
      && var s := Run(cfg, events);
         && Of(s.accepted, c) == [FullPacket(cfg)]
         && s.log == [Sent(LongRecord(cfg, addr), [FullPacket(cfg)])]
         && s.loop == Top(None) && Of(s.stashes, c) == [] && Of(s.queues, c) == []
         && Written(s.log) && DeliveredTo(cfg, s.log, c) == []
         && !DeliveredInOrder(cfg, s, c)
  {
    hide Receive, Parser.Parse, LossyRun, LongRecord, LongQuery, FullPacket;
    hide Outgoing, DecodedBy, RecordOk, AcceptedResponse;
    LossyRunHarmless(cfg, addr);
    AfterLossyRun(cfg, addr);
    LongResponseUnread(cfg, addr);
    var p, rec := FullPacket(cfg), LongRecord(cfg, addr);
    var e := Sent(rec, [p]);
    assert [e][..0] == [];
    assert DeliveredTo(cfg, [e], rec.client) == DeliveredTo(cfg, [], rec.client) + DecodedBy(cfg, e);
    NonEmptyOne(p);
  }

  /** Every run delivers every client's packets in order, as long as its record stays in the map. */
  ghost predicate AlwaysDelivers(cfg: Config)
    requires cfg.Accepted()
  {
    forall events, c | AllWithinMTU(cfg, events) && NeverExpires(events, c) ::
      LogWritten(cfg, events);
      DeliveredInOrder(cfg, Run(cfg, events), c)
  }

  /** Exactly the configurations under which no response outgrows the client's buffer deliver in every run. */
  lemma DeliversExactly(cfg: Config)
    requires cfg.Accepted() && ValidName(cfg.domain)
    ensures AlwaysDelivers(cfg) <==> FitsClient(cfg)
  {
    hide DeliveredInOrder, Written, FitsClient;
    if FitsClient(cfg) {
      forall events, c | AllWithinMTU(cfg, events) && NeverExpires(events, c)
        ensures Written(Run(cfg, events).log) && DeliveredInOrder(cfg, Run(cfg, events), c)
      {
        TunnelDelivers(cfg, events, c);
      }
    } else {
      LongResponseLost(cfg, []);
    }
  }

  /** With responses of up to 8192 octets run computes a limit of 7867, goes ahead, and loses packets. */
  lemma LargeConfigLoses(domain: Name, n: nat)
    requires ValidName(domain) && LabelsLen(domain) <= 240 && IsMaxPayload(n, 8192)
    ensures n == 7867 && Config(domain, 8192, n).Accepted() && !AlwaysDelivers(Config(domain, 8192, n))
  {
    assert WorstLen(7867) == 8192;
    forall k | 7867 < k < 32768 ensures WorstLen(k) > 8192 { Txt.TXTLenIncreases(7867, k); }
    MaxPayloadUnique(n, 7867, 8192);
    DeliversExactly(Config(domain, 8192, n));
  }
}
