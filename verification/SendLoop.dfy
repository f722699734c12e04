/**
 * The server's send loop as a state machine. Other goroutines enqueue packets and pass on queries between
 * any two of its steps; its select statements choose among whatever is ready.
 */
module SendLoop {
  import opened Bytes
  import opened Names
  import opened Messages
  import opened Writer
  import opened Framing
  import opened Server
  import opened Capacity
  import opened QueuePacketConns
  import Parser
  import RemoteMaps

  const RECORDS_CAPACITY := 4096
  const DATAGRAM_SIZE := 4096

  /** A packet whose length fits in its prefix; the loop panics on a longer one. */
  type Packet = p: bytes | |p| < 0x1_0000

  datatype Config = Config(domain: Name, maxUDPPayload: int, maxEncodedPayload: nat) {
    /** run does not refuse this configuration. */
    predicate Accepted() {
      && IsMaxPayload(maxEncodedPayload, maxUDPPayload)
      && ServerMTU(maxEncodedPayload) >= 80
    }
  }

  /** A response to fill in and send; query, which it answers, is only kept to state properties. */
  datatype Record = Record(resp: Message, addr: bytes, client: bytes, query: Message) {
    /** The record can carry downstream packets. */
    predicate CarriesData() {
      resp.Rcode() == RCODE_NO_ERROR && |resp.question| == 1
    }
  }

  /**
   * Where the loop takes packets from while it makes a bundle. None stands for the client's channel in the
   * map; when a record expires, the channels of it that the loop has are known to the loop only.
   */
  datatype Source = Source(stash: Option<seq<bytes>>, queue: Option<seq<bytes>>)

  const LIVE := Source(None, None)

  datatype Bundle = Bundle(rec: Record, packets: seq<Packet>, limit: int, source: Source)

  /**
   * Between getting the client's stash and getting its queue; then the three nested select statements: only
   * the stash; stash and queue; those, the timer and new records.
   */
  datatype Level = Open | Probe | Poll | Wait

  datatype Loop = Top(next: Option<Record>) | Selecting(level: Level, bundle: Bundle) | Crashed

  /** A record dealt with, and the packets bundled into its response. */
  datatype Sent = Sent(rec: Record, packets: seq<Packet>)

  datatype State = State(
    queues: map<bytes, seq<bytes>>,
    stashes: map<bytes, seq<bytes>>,
    ch: seq<Record>,
    loop: Loop,
    accepted: map<bytes, seq<bytes>>,
    offered: seq<Record>,
    log: seq<Sent>)

  const INIT := State(map[], map[], [], Top(None), map[], [], [])

  datatype Choice = FromStash | FromQueue | TimerExpired | FromRecords

  datatype Event =
    | WriteTo(client: bytes, p: bytes)
    | Datagram(buf: bytes, addr: bytes)
    | Expire(gone: set<bytes>)
    | LoopStep(choice: Choice)

  function Of<T>(m: map<bytes, seq<T>>, c: bytes): seq<T> {
    if c in m then m[c] else []
  }

  // ---------- Steps of the other goroutines ----------

  /** WriteTo: the packet is accepted unless the queue is full. */
  function DoWriteTo(s: State, c: bytes, p: bytes): State {
    if |Of(s.queues, c)| < RemoteMaps.QUEUE_SIZE
    then s.(queues := s.queues[c := Enqueued(Of(s.queues, c), p, RemoteMaps.QUEUE_SIZE)],
            accepted := s.accepted[c := Of(s.accepted, c) + [p]])
    else s
  }

  /** recvLoop: the record is passed on unless the channel is full. */
  function DoDatagram(cfg: Config, s: State, buf: bytes, addr: bytes): State {
    match Parser.Parse(Buffered(buf, DATAGRAM_SIZE))
    case Err(_) => s
    case Ok(query) =>
      var r := Receive(query, cfg.domain, cfg.maxUDPPayload);
      if r.resp.None? || |s.ch| >= RECORDS_CAPACITY then s
      else
        var rec := Record(r.resp.value, addr, r.client, query);
        s.(ch := s.ch + [rec], offered := s.offered + [rec])
  }

  // ---------- Steps of the loop ----------

  /** The end of the bundling loop: the response is completed and sent. */
  function Finish(s: State, b: Bundle, next: Option<Record>): State {
    s.(log := s.log + [Sent(b.rec, b.packets)], loop := Top(next))
  }

  /** What the loop does with a packet it has received from the stash or the queue. */
  function TakePacket(s: State, b: Bundle, p: bytes): (t: State)
    ensures t.offered == s.offered
  {
    if |p| == 0 then Finish(s, b, None)
    else
      var limit := b.limit - (2 + |p|);
      if b.packets != [] && limit < 0
      then Finish(s.(stashes := s.stashes[b.rec.client := Enqueued(Of(s.stashes, b.rec.client), p, 1)]), b, None)
      else if |p| >= 0x1_0000 then s.(loop := Crashed)
      else s.(loop := Selecting(Probe, Bundle(b.rec, b.packets + [p], limit, b.source)))
  }

  function StashSeen(s: State, b: Bundle): seq<bytes> {
    if b.source.stash.None? then Of(s.stashes, b.rec.client) else b.source.stash.value
  }

  function QueueSeen(s: State, b: Bundle): seq<bytes> {
    if b.source.queue.None? then Of(s.queues, b.rec.client) else b.source.queue.value
  }

  /** A receive from a closed queue never blocks. */
  predicate QueueReady(s: State, b: Bundle) {
    b.source.queue.Some? || QueueSeen(s, b) != []
  }

  function TakeFromStash(s: State, b: Bundle): State
    requires StashSeen(s, b) != []
  {
    var c, p, rest := b.rec.client, StashSeen(s, b)[0], StashSeen(s, b)[1..];
    if b.source.stash.None? then TakePacket(s.(stashes := s.stashes[c := rest]), b, p)
    else TakePacket(s, b.(source := b.source.(stash := Some(rest))), p)
  }

  /** A closed and empty queue yields no packet, which the loop takes for the end of the bundle. */
  function TakeFromQueue(s: State, b: Bundle): State
    requires QueueReady(s, b)
  {
    if QueueSeen(s, b) == [] then Finish(s, b, None)
    else
      var c, p, rest := b.rec.client, QueueSeen(s, b)[0], QueueSeen(s, b)[1..];
      if b.source.queue.None? then TakePacket(s.(queues := s.queues[c := rest]), b, p)
      else TakePacket(s, b.(source := b.source.(queue := Some(rest))), p)
  }

  // ---------- Expiry ----------

  /** The loop reads on from the channels it has, also when their record is gone. */
  function Detached(s: State, level: Level, b: Bundle): (d: Bundle)
    ensures d.rec == b.rec && d.packets == b.packets && d.limit == b.limit
  {
    b.(source := Source(Some(StashSeen(s, b)), if level == Open then b.source.queue else Some(QueueSeen(s, b))))
  }

  /** removeExpired: the records of these clients leave the map, and their queues are closed. */
  function DoExpire(s: State, gone: set<bytes>): State {
    var t := s.(queues := s.queues - gone, stashes := s.stashes - gone);
    if s.loop.Selecting? && s.loop.bundle.rec.client in gone
    then t.(loop := Selecting(s.loop.level, Detached(s, s.loop.level, s.loop.bundle)))
    else t
  }

  // ---------- The loop's own steps ----------

  /** One select statement; a choice that is not ready leaves the loop waiting. */
  function DoSelect(s: State, level: Level, b: Bundle, choice: Choice): State {
    var stashed := StashSeen(s, b) != [];
    var queued := QueueReady(s, b);
    match level
    case Open =>
      s.(loop := Selecting(Probe, b))
    case Probe =>
      if stashed then TakeFromStash(s, b) else s.(loop := Selecting(Poll, b))
    case Poll =>
      if !stashed && !queued then s.(loop := Selecting(Wait, b))
      else if choice == FromStash && stashed then TakeFromStash(s, b)
      else if choice == FromQueue && queued then TakeFromQueue(s, b)
      else s
    case Wait =>
      if choice == FromStash && stashed then TakeFromStash(s, b)
      else if choice == FromQueue && queued then TakeFromQueue(s, b)
      else if choice == TimerExpired then Finish(s, b, None)
      else if choice == FromRecords && s.ch != [] then Finish(s.(ch := s.ch[1..]), b, Some(s.ch[0]))
      else s
  }

  /** The start of an iteration of the outer loop, with the record to deal with. */
  function Begin(cfg: Config, s: State, rec: Record): State {
    if rec.CarriesData() then s.(loop := Selecting(Open, Bundle(rec, [], cfg.maxEncodedPayload, LIVE)))
    else s.(log := s.log + [Sent(rec, [])], loop := Top(None))
  }

  function DoLoopStep(cfg: Config, s: State, choice: Choice): State {
    match s.loop
    case Crashed => s
    case Top(Some(rec)) => Begin(cfg, s, rec)
    case Top(None) => if s.ch == [] then s else Begin(cfg, s.(ch := s.ch[1..]), s.ch[0])
    case Selecting(level, b) => DoSelect(s, level, b, choice)
  }

  function Step(cfg: Config, s: State, e: Event): State {
    match e
    case WriteTo(c, p) => DoWriteTo(s, c, p)
    case Datagram(buf, addr) => DoDatagram(cfg, s, buf, addr)
    case Expire(gone) => DoExpire(s, gone)
    case LoopStep(choice) => DoLoopStep(cfg, s, choice)
  }

  /** The state after any sequence of events. */
  function Run(cfg: Config, events: seq<Event>): State {
    if events == [] then INIT else Step(cfg, Run(cfg, events[..|events| - 1]), events[|events| - 1])
  }

  /** The outcomes of a select statement. */
  lemma SelectOutcomes(s: State, level: Level, b: Bundle, choice: Choice)
    requires s.loop == Selecting(level, b)
    ensures var t := DoSelect(s, level, b, choice);
      || t == s
      || (level == Open && t == s.(loop := Selecting(Probe, b)))
      || (level == Probe && StashSeen(s, b) == [] && t == s.(loop := Selecting(Poll, b)))
      || (level == Poll && StashSeen(s, b) == [] && !QueueReady(s, b) && t == s.(loop := Selecting(Wait, b)))
      || (StashSeen(s, b) != [] && t == TakeFromStash(s, b))
      || ((level == Poll || level == Wait) && QueueReady(s, b) && t == TakeFromQueue(s, b))
      || t == Finish(s, b, None)
      || (s.ch != [] && t == Finish(s.(ch := s.ch[1..]), b, Some(s.ch[0])))
  {
  }

  // ---------- What is sent ----------

  /** A record as recvLoop makes them. */
  predicate RecordOk(cfg: Config, rec: Record) {
    && ValidNames(rec.query) && Fits(rec.query)
    && var r := Receive(rec.query, cfg.domain, cfg.maxUDPPayload);
       r.resp == Some(rec.resp) && r.client == rec.client
  }

  lemma ShapedResponseValid(resp: Message, query: Message)
    requires ShapedFor(resp, query) && ValidNames(query) && Fits(query)
    ensures ValidNames(resp) && Fits(resp)
  {
  }

  lemma {:induction false} RecordResponse(cfg: Config, rec: Record)
    requires RecordOk(cfg, rec)
    ensures ValidNames(rec.resp) && Fits(rec.resp)
    ensures rec.CarriesData() ==> Fillable(rec.resp) && rec.resp == AcceptedResponse(rec.query)
    ensures rec.CarriesData() <==> Acceptable(rec.query, cfg.domain, cfg.maxUDPPayload)
  {
    ReceiveShape(rec.query, cfg.domain, cfg.maxUDPPayload);
    ShapedResponseValid(rec.resp, rec.query);
    OnlyAcceptableQueriesCarryData(rec.query, cfg.domain, cfg.maxUDPPayload);
    if rec.CarriesData() {
      AcceptedQuery(rec.query, cfg.domain, cfg.maxUDPPayload);
    }
  }

  /** The message that goes out for a record: completed with an answer if it carries data. */
  function Outgoing(e: Sent): Message {
    if e.rec.CarriesData() then DataResponse(e.rec.resp, Frame(e.packets)) else e.rec.resp
  }

  /** The datagram for a message: cut short, with the TC bit set, if it is too long. */
  function Transmitted(cfg: Config, m: Message): Option<bytes>
    requires cfg.maxUDPPayload >= 3 && ValidNames(m)
  {
    match WireFormat(m)
    case Err(_) => None
    case Ok(buf) =>
      if |buf| > cfg.maxUDPPayload
      then Some(buf[..cfg.maxUDPPayload][2 := if buf[2] / 2 % 2 == 1 then buf[2] else buf[2] + 2])
      else Some(buf)
  }

  /** What recvLoop passes on for a query: its response, and the ClientID if the query is complete. */
  predicate RecordFor(cfg: Config, rec: Record, query: Message, addr: bytes) {
    && rec.addr == addr && rec.query == query
    && rec.resp == ExpectedResponse(query, cfg.domain, cfg.maxUDPPayload)
    && (Acceptable(query, cfg.domain, cfg.maxUDPPayload) ==>
          rec.client == NamePayload(query.question[0].name, cfg.domain).value[..8])
  }

  /**
   * Every datagram whose first 4096 octets are a query is passed on as exactly one record, with or without
   * an error, as long as there is room for it; no other datagram has any effect on the send loop.
   */
  lemma {:induction false} DatagramExactly(cfg: Config, s: State, buf: bytes, addr: bytes)
    ensures var t, seen := Step(cfg, s, Datagram(buf, addr)), if |buf| > 4096 then buf[..4096] else buf;
      if Parser.Parse(seen).Ok? && Parser.Parse(seen).value.flags < 0x8000 && |s.ch| < 4096
      then exists rec ::
        && RecordFor(cfg, rec, Parser.Parse(seen).value, addr) && RecordOk(cfg, rec)
        && t == s.(ch := s.ch + [rec], offered := s.offered + [rec])
      else t == s
  {
    hide ExpectedResponse, Receive, Acceptable, NamePayload;
    var seen := Buffered(buf, DATAGRAM_SIZE);
    var q := Parser.Parse(seen);
    if q.Ok? {
      Parser.ParsedMessageValid(seen);
      var r := Receive(q.value, cfg.domain, cfg.maxUDPPayload);
      NoResponseToResponses(q.value, cfg.domain, cfg.maxUDPPayload);
      if q.value.flags < 0x8000 && |s.ch| < 4096 {
        ResponseExactly(q.value, cfg.domain, cfg.maxUDPPayload);
        if Acceptable(q.value, cfg.domain, cfg.maxUDPPayload) {
          AcceptedQuery(q.value, cfg.domain, cfg.maxUDPPayload);
        }
        var rec := Record(r.resp.value, addr, r.client, q.value);
        assert RecordFor(cfg, rec, q.value, addr) && RecordOk(cfg, rec);
      }
    }
  }

  lemma {:induction false} DatagramRecord(cfg: Config, s: State, buf: bytes, addr: bytes)
    ensures var t := DoDatagram(cfg, s, buf, addr);
      t == s || exists rec :: RecordOk(cfg, rec) && t == s.(ch := s.ch + [rec], offered := s.offered + [rec])
  {
    DatagramExactly(cfg, s, buf, addr);
  }

  /** The records that the loop has taken but not dealt with. */
  function Held(loop: Loop): seq<Record> {
    match loop
    case Top(None) => []
    case Top(Some(rec)) => [rec]
    case Selecting(_, b) => [b.rec]
    case Crashed => []
  }
}
