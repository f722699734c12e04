/** What the send loop puts on the network in any run: sizes, and what the client makes of it. */
module Responses {
  import opened Bytes
  import opened Names
  import opened Messages
  import opened Writer
  import opened RoundTrip
  import opened Framing
  import opened Client
  import opened Server
  import opened Capacity
  import opened QueuePacketConns
  import opened SendLoop
  import opened Delivery
  import opened SubLists
  import opened Tunnel
  import Parser
  import Txt

  // ---------- Sizes ----------

  /** KCP keeps to the packet size limit it is given. */
  predicate WithinMTU(cfg: Config, e: Event) {
    e.WriteTo? ==> |e.p| <= ServerMTU(cfg.maxEncodedPayload)
  }

  predicate AllFit(cfg: Config, ps: seq<bytes>) {
    forall i :: 0 <= i < |ps| ==> |ps[i]| <= ServerMTU(cfg.maxEncodedPayload)
  }

  predicate PacketsFit(cfg: Config, m: map<bytes, seq<bytes>>) {
    forall c :: c in m ==> AllFit(cfg, m[c])
  }

  /** Bundles stay within the payload limit; only records that carry data get any. */
  predicate BundleFits(cfg: Config, b: Bundle) {
    && b.rec.CarriesData() && b.limit >= 0 && FrameLen(b.packets) == cfg.maxEncodedPayload - b.limit
    && AllFit(cfg, Opt(b.source.stash)) && AllFit(cfg, Opt(b.source.queue))
  }

  predicate SentFits(cfg: Config, e: Sent) {
    FrameLen(e.packets) <= cfg.maxEncodedPayload && (!e.rec.CarriesData() ==> e.packets == [])
  }

  predicate Sizes(cfg: Config, s: State) {
    && !s.loop.Crashed? && PacketsFit(cfg, s.queues) && PacketsFit(cfg, s.stashes)
    && (s.loop.Selecting? ==> BundleFits(cfg, s.loop.bundle))
    && (forall i :: 0 <= i < |s.log| ==> SentFits(cfg, s.log[i]))
  }

  lemma FinishSizes(cfg: Config, s: State, b: Bundle, next: Option<Record>)
    requires Sizes(cfg, s) && BundleFits(cfg, b)
    ensures Sizes(cfg, Finish(s, b, next))
  {
  }

  lemma TakePacketSizes(cfg: Config, s: State, b: Bundle, p: bytes)
    requires cfg.Accepted() && Sizes(cfg, s) && BundleFits(cfg, b) && |p| <= ServerMTU(cfg.maxEncodedPayload)
    ensures Sizes(cfg, TakePacket(s, b, p))
  {
    var limit := b.limit - (2 + |p|);
    if |p| == 0 {
      FinishSizes(cfg, s, b, None);
    } else if b.packets != [] && limit < 0 {
      FinishSizes(cfg, s.(stashes := s.stashes[b.rec.client := Enqueued(Of(s.stashes, b.rec.client), p, 1)]), b, None);
    } else {
      FrameAppend(b.packets, p);
      assert BundleFits(cfg, Bundle(b.rec, b.packets + [p], limit, b.source));
    }
  }

  lemma TakeFromStashSizes(cfg: Config, s: State, b: Bundle)
    requires cfg.Accepted() && Sizes(cfg, s) && BundleFits(cfg, b) && StashSeen(s, b) != []
    ensures Sizes(cfg, TakeFromStash(s, b))
  {
    hide TakePacket;
    var c, p, rest := b.rec.client, StashSeen(s, b)[0], StashSeen(s, b)[1..];
    assert AllFit(cfg, StashSeen(s, b)) && AllFit(cfg, rest);
    if b.source.stash.None? {
      TakePacketSizes(cfg, s.(stashes := s.stashes[c := rest]), b, p);
    } else {
      TakePacketSizes(cfg, s, b.(source := b.source.(stash := Some(rest))), p);
    }
  }

  lemma TakeFromQueueSizes(cfg: Config, s: State, b: Bundle)
    requires cfg.Accepted() && Sizes(cfg, s) && BundleFits(cfg, b) && QueueReady(s, b)
    ensures Sizes(cfg, TakeFromQueue(s, b))
  {
    hide TakePacket, Finish;
    if QueueSeen(s, b) == [] {
      FinishSizes(cfg, s, b, None);
    } else {
      var c, p, rest := b.rec.client, QueueSeen(s, b)[0], QueueSeen(s, b)[1..];
      assert AllFit(cfg, QueueSeen(s, b)) && AllFit(cfg, rest);
      if b.source.queue.None? {
        TakePacketSizes(cfg, s.(queues := s.queues[c := rest]), b, p);
      } else {
        TakePacketSizes(cfg, s, b.(source := b.source.(queue := Some(rest))), p);
      }
    }
  }

  lemma SelectSizes(cfg: Config, s: State, level: Level, b: Bundle, choice: Choice)
    requires cfg.Accepted() && Sizes(cfg, s) && s.loop == Selecting(level, b)
    ensures Sizes(cfg, DoSelect(s, level, b, choice))
  {
    hide TakeFromStash, TakeFromQueue;
    SelectOutcomes(s, level, b, choice);
    var t := DoSelect(s, level, b, choice);
    if StashSeen(s, b) != [] && t == TakeFromStash(s, b) {
      TakeFromStashSizes(cfg, s, b);
    } else if QueueReady(s, b) && t == TakeFromQueue(s, b) {
      TakeFromQueueSizes(cfg, s, b);
    } else if t == Finish(s, b, None) {
      FinishSizes(cfg, s, b, None);
    } else if s.ch != [] && t == Finish(s.(ch := s.ch[1..]), b, Some(s.ch[0])) {
      FinishSizes(cfg, s.(ch := s.ch[1..]), b, Some(s.ch[0]));
    }
  }

  lemma ExpireSizes(cfg: Config, s: State, gone: set<bytes>)
    requires Sizes(cfg, s)
    ensures Sizes(cfg, DoExpire(s, gone))
  {
  }

  lemma WriteToSizes(cfg: Config, s: State, c: bytes, p: bytes)
    requires Sizes(cfg, s) && |p| <= ServerMTU(cfg.maxEncodedPayload)
    ensures Sizes(cfg, DoWriteTo(s, c, p))
  {
  }

  lemma {:induction false} StepSizes(cfg: Config, s: State, e: Event)
    requires cfg.Accepted() && Sizes(cfg, s) && WithinMTU(cfg, e)
    ensures Sizes(cfg, Step(cfg, s, e))
  {
    hide Receive, Parser.Parse, DoSelect, DoWriteTo, DoExpire;
    match e
    case WriteTo(c, p) => WriteToSizes(cfg, s, c, p);
    case Expire(gone) => ExpireSizes(cfg, s, gone);
    case Datagram(_, _) =>
    case LoopStep(choice) =>
      if s.loop.Selecting? { SelectSizes(cfg, s, s.loop.level, s.loop.bundle, choice); }
  }

  predicate AllWithinMTU(cfg: Config, events: seq<Event>) {
    forall i :: 0 <= i < |events| ==> WithinMTU(cfg, events[i])
  }

  lemma {:induction false} RunSizes(cfg: Config, events: seq<Event>)
    requires cfg.Accepted() && AllWithinMTU(cfg, events)
    ensures Sizes(cfg, Run(cfg, events))
  {
    if events != [] {
      var before := events[..|events| - 1];
      RunSizes(cfg, before);
      StepSizes(cfg, Run(cfg, before), events[|events| - 1]);
    }
  }

  // ---------- Records come from recvLoop ----------

  predicate AllOk(cfg: Config, recs: seq<Record>) {
    forall i :: 0 <= i < |recs| ==> RecordOk(cfg, recs[i])
  }

  lemma SelectOffersNothing(s: State, level: Level, b: Bundle, choice: Choice)
    requires s.loop == Selecting(level, b)
    ensures DoSelect(s, level, b, choice).offered == s.offered
  {
    hide TakePacket;
  }

  lemma {:induction false} StepOffered(cfg: Config, s: State, e: Event)
    requires AllOk(cfg, s.offered)
    ensures AllOk(cfg, Step(cfg, s, e).offered)
  {
    match e
    case WriteTo(_, _) =>
    case Expire(_) =>
    case Datagram(buf, addr) => DatagramRecord(cfg, s, buf, addr);
    case LoopStep(choice) =>
      if s.loop.Selecting? { SelectOffersNothing(s, s.loop.level, s.loop.bundle, choice); }
  }

  lemma {:induction false} OfferedOk(cfg: Config, events: seq<Event>)
    ensures AllOk(cfg, Run(cfg, events).offered)
  {
    if events != [] {
      var before := events[..|events| - 1];
      OfferedOk(cfg, before);
      StepOffered(cfg, Run(cfg, before), events[|events| - 1]);
    }
  }

  lemma {:induction false} RecsAt(log: seq<Sent>, i: nat)
    requires i < |log|
    ensures |Recs(log)| == |log| && Recs(log)[i] == log[i].rec
  {
    var n := |log| - 1;
    if n > 0 { RecsAt(log[..n], if i < n then i else 0); }
  }

  /** Whatever has been dealt with came from recvLoop. */
  lemma {:induction false} LoggedRecordOk(cfg: Config, events: seq<Event>, i: nat)
    requires i < |Run(cfg, events).log| && !Run(cfg, events).loop.Crashed?
    ensures RecordOk(cfg, Run(cfg, events).log[i].rec)
  {
    var s := Run(cfg, events);
    RecordsInOrder(cfg, events);
    OfferedOk(cfg, events);
    RecsAt(s.log, i);
    assert s.offered[i] == s.log[i].rec;
  }

  // ---------- Datagrams ----------

  /** The datagram sent for a record; every record gets one. */
  predicate IsDatagramFor(cfg: Config, e: Sent, buf: bytes)
    requires cfg.Accepted()
  {
    ValidNames(Outgoing(e)) && Transmitted(cfg, Outgoing(e)) == Some(buf)
  }

  /** The message as it is, uncut, and within what the requester announced. */
  predicate SentWhole(cfg: Config, e: Sent, buf: bytes) {
    && ValidNames(Outgoing(e)) && WireFormat(Outgoing(e)) == Ok(buf)
    && |buf| <= cfg.maxUDPPayload && |buf| <= AdvertisedSize(e.rec.query.additional)
  }

  /**
   * A response with packets goes out whole. The client extracts exactly these packets, unless the datagram
   * is longer than its buffer: then it extracts none.
   */
  lemma {:induction false} DataResponseSent(cfg: Config, e: Sent)
    requires cfg.Accepted() && RecordOk(cfg, e.rec) && e.rec.CarriesData() && SentFits(cfg, e)
    ensures ValidNames(Outgoing(e)) && Fits(Outgoing(e))
    ensures var buf := WireFormat(Outgoing(e)).value;
      && IsDatagramFor(cfg, e, buf) && SentWhole(cfg, e, buf)
      && ExtractedFrom(buf, cfg.domain) == if |buf| <= RESPONSE_BUFFER then e.packets else []
  {
    hide Receive, NamePayload, WriteMessage, Parser.Parse, Frame, SizedPackets;
    RecordResponse(cfg, e.rec);
    FrameSize(e.packets);
    DownstreamEndToEnd(e.rec.query, e.packets, cfg.domain, cfg.maxUDPPayload);
    NoLongerThanWorst(e.rec.resp, Frame(e.packets));
    if FrameLen(e.packets) < cfg.maxEncodedPayload {
      Txt.TXTLenIncreases(FrameLen(e.packets), cfg.maxEncodedPayload);
    }
    var buf := WireFormat(Outgoing(e)).value;
    if |buf| > RESPONSE_BUFFER { Parser.CutNeverParses(buf, buf[..RESPONSE_BUFFER]); }
  }

  /** A datagram with an error code yields no packets, even if it was cut and marked as such. */
  lemma {:induction false} ErrorYieldsNothing(datagram: bytes, domain: Name)
    requires |datagram| >= 4 && datagram[3] % 0x10 != RCODE_NO_ERROR
    ensures ExtractedFrom(datagram, domain) == []
  {
    hide Parser.Parse;
    var seen := Buffered(datagram, RESPONSE_BUFFER);
    if Parser.Parse(seen).Ok? {
      Parser.ParsedRcode(seen);
      assert seen[3] == datagram[3];
    }
  }

  /** Any other response may be cut, but is never taken for one with packets. */
  lemma {:induction false} OtherResponseSent(cfg: Config, e: Sent)
    requires cfg.Accepted() && RecordOk(cfg, e.rec) && !e.rec.CarriesData()
    ensures exists buf :: IsDatagramFor(cfg, e, buf)
    ensures forall buf :: IsDatagramFor(cfg, e, buf) ==>
              |buf| <= cfg.maxUDPPayload && ExtractedFrom(buf, cfg.domain) == []
  {
    RecordResponse(cfg, e.rec);
    WrittenRcode(e.rec.resp);
    var buf := Transmitted(cfg, Outgoing(e)).value;
    assert IsDatagramFor(cfg, e, buf);
    ErrorRecord(cfg, e.rec);
    MaxPayloadAllows(cfg);
    assert buf[3] == WireFormat(e.rec.resp).value[3];
    ErrorYieldsNothing(buf, cfg.domain);
  }

  lemma ErrorRecord(cfg: Config, rec: Record)
    requires RecordOk(cfg, rec) && !rec.CarriesData()
    ensures rec.resp.Rcode() != RCODE_NO_ERROR
  {
    OnlyAcceptableQueriesCarryData(rec.query, cfg.domain, cfg.maxUDPPayload);
    ReceiveShape(rec.query, cfg.domain, cfg.maxUDPPayload);
  }

  lemma MaxPayloadAllows(cfg: Config)
    requires cfg.Accepted()
    ensures cfg.maxUDPPayload >= 294
  {
  }

  /** The client extracts exactly these packets from the datagram. */
  predicate Delivers(cfg: Config, buf: bytes, packets: seq<bytes>) {
    ExtractedFrom(buf, cfg.domain) == packets
  }

  /**
   * In every run, if the configuration was accepted and KCP keeps to its packet size limit: the loop never
   * panics; every record gets a datagram within maxUDPPayload; one that carries data is never cut and fits
   * what the requester announced; and every datagram yields exactly its packets at the client, if and only
   * if it fits the client's buffer or has none.
   */
  lemma {:induction false} ResponsesNeverTruncated(cfg: Config, events: seq<Event>, i: nat)
    requires cfg.Accepted() && AllWithinMTU(cfg, events) && i < |Run(cfg, events).log|
    ensures !Run(cfg, events).loop.Crashed?
    ensures var e := Run(cfg, events).log[i];
      exists buf :: IsDatagramFor(cfg, e, buf) && |buf| <= cfg.maxUDPPayload
        && (e.rec.CarriesData() ==> SentWhole(cfg, e, buf))
        && (Delivers(cfg, buf, e.packets) <==> |buf| <= RESPONSE_BUFFER || e.packets == [])
  {
    RunSizes(cfg, events);
    LoggedRecordOk(cfg, events, i);
    var e := Run(cfg, events).log[i];
    if e.rec.CarriesData() {
      DataResponseSent(cfg, e);
      assert IsDatagramFor(cfg, e, WireFormat(Outgoing(e)).value);
    } else {
      OtherResponseSent(cfg, e);
    }
  }

  // ---------- Delivery ----------

  /** Every response in the log can be written. */
  predicate Written(log: seq<Sent>) {
    forall i :: 0 <= i < |log| ==> ValidNames(Outgoing(log[i]))
  }

  /** What the client extracts from the datagram for a record. */
  function DecodedBy(cfg: Config, e: Sent): seq<bytes>
    requires cfg.Accepted() && ValidNames(Outgoing(e))
  {
    match Transmitted(cfg, Outgoing(e))
    case None => []
    case Some(buf) => ExtractedFrom(buf, cfg.domain)
  }

  /** What one client extracts from all the datagrams sent in answer to its queries, in the order they were sent. */
  function DeliveredTo(cfg: Config, log: seq<Sent>, c: bytes): seq<bytes>
    requires cfg.Accepted() && Written(log)
  {
    if log == [] then []
    else
      var e := log[|log| - 1];
      DeliveredTo(cfg, log[..|log| - 1], c) + (if e.rec.client == c then DecodedBy(cfg, e) else [])
  }

  lemma OutgoingValid(cfg: Config, e: Sent)
    requires RecordOk(cfg, e.rec)
    ensures ValidNames(Outgoing(e))
  {
    RecordResponse(cfg, e.rec);
  }

  /**
   * No response with packets outgrows the client's buffer: responses are not made that long, or no
   * requester can announce what the server asks for, or the domain leaves no room for a ClientID.
   */
  predicate FitsClient(cfg: Config) {
    cfg.maxUDPPayload <= RESPONSE_BUFFER || cfg.maxUDPPayload > 0xffff || LabelsLen(cfg.domain) > 240
  }

  lemma CarriersFit(cfg: Config, rec: Record)
    requires FitsClient(cfg) && RecordOk(cfg, rec) && rec.CarriesData()
    ensures cfg.maxUDPPayload <= RESPONSE_BUFFER
  {
    hide Receive, NamePayload;
    RecordResponse(cfg, rec);
    OptRecordClass(rec.query.additional);
    ClientIDNeedsRoom(rec.query.question[0].name, cfg.domain);
  }

  lemma {:induction false} DecodedIsCarried(cfg: Config, e: Sent)
    requires cfg.Accepted() && FitsClient(cfg) && RecordOk(cfg, e.rec) && SentFits(cfg, e)
    ensures ValidNames(Outgoing(e)) && DecodedBy(cfg, e) == e.packets
  {
    OutgoingValid(cfg, e);
    if e.rec.CarriesData() {
      CarriersFit(cfg, e.rec);
      DataResponseSent(cfg, e);
    } else {
      OtherResponseSent(cfg, e);
      var buf :| IsDatagramFor(cfg, e, buf);
    }
  }

  lemma {:induction false} DeliveredIsCarried(cfg: Config, log: seq<Sent>, c: bytes)
    requires cfg.Accepted() && FitsClient(cfg)
    requires forall i :: 0 <= i < |log| ==> RecordOk(cfg, log[i].rec) && SentFits(cfg, log[i])
    ensures Written(log) && DeliveredTo(cfg, log, c) == CarriedTo(log, c)
  {
    hide RecordOk, SentFits, Outgoing, DecodedBy;
    if log != [] {
      DeliveredIsCarried(cfg, log[..|log| - 1], c);
      DecodedIsCarried(cfg, log[|log| - 1]);
      forall i | 0 <= i < |log| ensures ValidNames(Outgoing(log[i])) { OutgoingValid(cfg, log[i]); }
    }
  }

  /**
   * The client's non-empty packets are, in order, those that it extracts from the datagrams sent so far,
   * followed by those that the server still holds.
   */
  predicate DeliveredInOrder(cfg: Config, s: State, c: bytes)
    requires cfg.Accepted() && Written(s.log)
  {
    NonEmpty(Of(s.accepted, c))
      == DeliveredTo(cfg, s.log, c) + InBundle(s.loop, c) + Of(s.stashes, c) + NonEmpty(Of(s.queues, c))
  }

  lemma {:induction false} LogWritten(cfg: Config, events: seq<Event>)
    requires cfg.Accepted() && AllWithinMTU(cfg, events)
    ensures Written(Run(cfg, events).log)
  {
    var s := Run(cfg, events);
    RunSizes(cfg, events);
    forall i | 0 <= i < |s.log| ensures ValidNames(Outgoing(s.log[i])) {
      LoggedRecordOk(cfg, events, i);
      OutgoingValid(cfg, s.log[i]);
    }
  }

  lemma {:induction false} DecodedOrNothing(cfg: Config, e: Sent)
    requires cfg.Accepted() && RecordOk(cfg, e.rec) && SentFits(cfg, e)
    ensures ValidNames(Outgoing(e)) && (DecodedBy(cfg, e) == e.packets || DecodedBy(cfg, e) == [])
  {
    OutgoingValid(cfg, e);
    if e.rec.CarriesData() {
      DataResponseSent(cfg, e);
    } else {
      OtherResponseSent(cfg, e);
      var buf :| IsDatagramFor(cfg, e, buf);
    }
  }

  lemma {:induction false} DeliveredOfCarried(cfg: Config, log: seq<Sent>, c: bytes)
    requires cfg.Accepted() && Written(log)
    requires forall i :: 0 <= i < |log| ==> RecordOk(cfg, log[i].rec) && SentFits(cfg, log[i])
    ensures SubList(DeliveredTo(cfg, log, c), CarriedTo(log, c))
  {
    hide RecordOk, SentFits, Outgoing, DecodedBy;
    if log != [] {
      var before, e := log[..|log| - 1], log[|log| - 1];
      DeliveredOfCarried(cfg, before, c);
      DecodedOrNothing(cfg, e);
      var delivered, carried := DeliveredTo(cfg, before, c), CarriedTo(before, c);
      var x := if e.rec.client == c then e.packets else [];
      AppendBoth(delivered, carried, x);
      AppendRight(delivered, carried, x);
      assert delivered + [] == delivered;
    }
  }

  /**
   * In every run of every accepted configuration, whatever expires and whatever the client cannot read:
   * what a client extracts is an in-order part of the non-empty packets accepted for it. No packet arrives
   * twice, out of order, or at another client.
   */
  lemma {:induction false} DeliveredNeverReordered(cfg: Config, events: seq<Event>, c: bytes)
    requires cfg.Accepted() && AllWithinMTU(cfg, events)
    ensures Written(Run(cfg, events).log)
    ensures var s := Run(cfg, events);
      SubList(DeliveredTo(cfg, s.log, c), NonEmpty(Of(s.accepted, c)))
  {
    hide RecordOk, SentFits, DeliveredTo, Receive;
    var s := Run(cfg, events);
    LogWritten(cfg, events);
    RunSizes(cfg, events);
    PacketsNeverReordered(cfg, events, c);
    forall i | 0 <= i < |s.log| ensures RecordOk(cfg, s.log[i].rec) {
      LoggedRecordOk(cfg, events, i);
    }
    DeliveredOfCarried(cfg, s.log, c);
    var carried, all := CarriedTo(s.log, c), All(s, c);
    assert carried <= all;
    PrefixIsSubList(carried, all);
    Transitive(DeliveredTo(cfg, s.log, c), carried, all);
    Transitive(DeliveredTo(cfg, s.log, c), all, NonEmpty(Of(s.accepted, c)));
  }

  /**
   * The tunnel downstream, over every run in which the client's record stays in the map: if no response
   * outgrows the client's buffer, the packets that the server accepts are delivered in order.
   */
  lemma {:induction false} TunnelDelivers(cfg: Config, events: seq<Event>, c: bytes)
    requires cfg.Accepted() && FitsClient(cfg)
    requires AllWithinMTU(cfg, events) && NeverExpires(events, c)
    ensures Written(Run(cfg, events).log) && DeliveredInOrder(cfg, Run(cfg, events), c)
  {
    var s := Run(cfg, events);
    LogWritten(cfg, events);
    RunSizes(cfg, events);
    PacketsConserved(cfg, events, c);
    forall i | 0 <= i < |s.log| ensures RecordOk(cfg, s.log[i].rec) {
      LoggedRecordOk(cfg, events, i);
    }
    DeliveredIsCarried(cfg, s.log, c);
  }
}
