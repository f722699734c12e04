/** What holds in every run of the send loop: order, conservation, sizes, and delivery to the client. */
module Delivery {
  import opened Bytes
  import opened QueuePacketConns
  import opened Server
  import opened SendLoop
  import opened SubLists
  import Parser

  // ---------- Each record once, in order ----------

  function Recs(log: seq<Sent>): seq<Record> {
    if log == [] then [] else Recs(log[..|log| - 1]) + [log[|log| - 1].rec]
  }

  lemma RecsAppend(log: seq<Sent>, e: Sent)
    ensures Recs(log + [e]) == Recs(log) + [e.rec]
  {
    assert (log + [e])[..|log|] == log;
  }

  /** The records passed on: those dealt with, then the one in hand, then those waiting. */
  predicate InOrder(s: State) {
    s.loop.Crashed? || s.offered == Recs(s.log) + Held(s.loop) + s.ch
  }

  lemma FinishInOrder(s: State, b: Bundle, next: Option<Record>)
    ensures var t := Finish(s, b, next);
      Recs(t.log) == Recs(s.log) + [b.rec] && t.loop == Top(next) && t.ch == s.ch && t.offered == s.offered
  {
    var t := Finish(s, b, next);
    RecsAppend(s.log, t.log[|s.log|]);
  }

  lemma FinishedInOrder(s: State, b: Bundle, next: Option<Record>)
    requires s.offered == Recs(s.log) + [b.rec] + (if next.Some? then [next.value] else []) + s.ch
    ensures InOrder(Finish(s, b, next))
  {
    FinishInOrder(s, b, next);
  }

  lemma TakePacketInOrder(s: State, b: Bundle, p: bytes)
    requires s.offered == Recs(s.log) + [b.rec] + s.ch
    ensures InOrder(TakePacket(s, b, p))
  {
    var t := TakePacket(s, b, p);
    var s1 := s.(stashes := s.stashes[b.rec.client := Enqueued(Of(s.stashes, b.rec.client), p, 1)]);
    assert Recs(s.log) + [b.rec] + [] == Recs(s.log) + [b.rec];
    if |p| == 0 {
      FinishedInOrder(s, b, None);
    } else if t == Finish(s1, b, None) {
      FinishedInOrder(s1, b, None);
    } else if !t.loop.Crashed? {
      assert t == s.(loop := t.loop) && Held(t.loop) == [b.rec];
    }
  }

  lemma TakeFromStashInOrder(s: State, b: Bundle)
    requires s.offered == Recs(s.log) + [b.rec] + s.ch && StashSeen(s, b) != []
    ensures InOrder(TakeFromStash(s, b))
  {
    var c, p, rest := b.rec.client, StashSeen(s, b)[0], StashSeen(s, b)[1..];
    if b.source.stash.None? {
      TakePacketInOrder(s.(stashes := s.stashes[c := rest]), b, p);
    } else {
      TakePacketInOrder(s, b.(source := b.source.(stash := Some(rest))), p);
    }
  }

  lemma TakeFromQueueInOrder(s: State, b: Bundle)
    requires s.offered == Recs(s.log) + [b.rec] + s.ch && QueueReady(s, b)
    ensures InOrder(TakeFromQueue(s, b))
  {
    if QueueSeen(s, b) == [] {
      assert Recs(s.log) + [b.rec] + [] == Recs(s.log) + [b.rec];
      FinishedInOrder(s, b, None);
    } else {
      var c, p, rest := b.rec.client, QueueSeen(s, b)[0], QueueSeen(s, b)[1..];
      if b.source.queue.None? {
        TakePacketInOrder(s.(queues := s.queues[c := rest]), b, p);
      } else {
        TakePacketInOrder(s, b.(source := b.source.(queue := Some(rest))), p);
      }
    }
  }

  lemma {:induction false} SelectInOrder(s: State, level: Level, b: Bundle, choice: Choice)
    requires InOrder(s) && s.loop == Selecting(level, b)
    ensures InOrder(DoSelect(s, level, b, choice))
  {
    SelectOutcomes(s, level, b, choice);
    var t := DoSelect(s, level, b, choice);
    if StashSeen(s, b) != [] && t == TakeFromStash(s, b) {
      TakeFromStashInOrder(s, b);
    } else if QueueReady(s, b) && t == TakeFromQueue(s, b) {
      TakeFromQueueInOrder(s, b);
    } else if t == Finish(s, b, None) {
      assert Recs(s.log) + [b.rec] + [] == Recs(s.log) + [b.rec];
      FinishedInOrder(s, b, None);
    } else if s.ch != [] && t == Finish(s.(ch := s.ch[1..]), b, Some(s.ch[0])) {
      assert Recs(s.log) + [b.rec] + s.ch == Recs(s.log) + [b.rec] + [s.ch[0]] + s.ch[1..];
      FinishedInOrder(s.(ch := s.ch[1..]), b, Some(s.ch[0]));
    }
  }

  lemma BeginInOrder(cfg: Config, s: State, rec: Record)
    requires s.offered == Recs(s.log) + [rec] + s.ch
    ensures InOrder(Begin(cfg, s, rec))
  {
    if !rec.CarriesData() {
      var e := Sent(rec, []);
      assert Begin(cfg, s, rec) == s.(log := s.log + [e], loop := Top(None));
      RecsAppend(s.log, e);
      assert Recs(s.log + [e]) + [] == Recs(s.log + [e]);
    }
  }

  lemma {:induction false} StepInOrder(cfg: Config, s: State, e: Event)
    requires InOrder(s)
    ensures InOrder(Step(cfg, s, e))
  {
    match e
    case WriteTo(_, _) =>
    case Expire(_) =>
    case Datagram(buf, addr) =>
      DatagramRecord(cfg, s, buf, addr);
      var t := Step(cfg, s, e);
      if t != s && !s.loop.Crashed? {
        var rec :| RecordOk(cfg, rec) && t == s.(ch := s.ch + [rec], offered := s.offered + [rec]);
        assert Recs(s.log) + Held(s.loop) + (s.ch + [rec]) == (Recs(s.log) + Held(s.loop) + s.ch) + [rec];
      }
    case LoopStep(choice) =>
      match s.loop
      case Crashed =>
      case Top(Some(rec)) =>
        BeginInOrder(cfg, s, rec);
      case Top(None) =>
        if s.ch != [] {
          assert Recs(s.log) + [] + s.ch == Recs(s.log) + [s.ch[0]] + s.ch[1..];
          BeginInOrder(cfg, s.(ch := s.ch[1..]), s.ch[0]);
        }
      case Selecting(level, b) =>
        SelectInOrder(s, level, b, choice);
  }

  /** Every record that recvLoop passes on is dealt with exactly once, in the order of arrival. */
  lemma {:induction false} RecordsInOrder(cfg: Config, events: seq<Event>)
    ensures InOrder(Run(cfg, events))
  {
    if events != [] {
      var before := events[..|events| - 1];
      RecordsInOrder(cfg, before);
      StepInOrder(cfg, Run(cfg, before), events[|events| - 1]);
    }
  }

  // ---------- Conservation of packets ----------

  function NonEmpty(ps: seq<bytes>): seq<bytes> {
    if ps == [] then [] else (if ps[0] == [] then [] else [ps[0]]) + NonEmpty(ps[1..])
  }

  lemma Assoc<T>(a: seq<T>, b: seq<T>, c: seq<T>)
    ensures a + (b + c) == (a + b) + c
  {
  }

  lemma {:induction false} NonEmptyConcat(a: seq<bytes>, b: seq<bytes>)
    ensures NonEmpty(a + b) == NonEmpty(a) + NonEmpty(b)
  {
    if a == [] {
      assert a + b == b;
    } else {
      NonEmptyConcat(a[1..], b);
      assert (a + b)[1..] == a[1..] + b;
      var head := if a[0] == [] then [] else [a[0]];
      Assoc(head, NonEmpty(a[1..]), NonEmpty(b));
    }
  }

  lemma NonEmptyOne(p: bytes)
    ensures NonEmpty([p]) == if p == [] then [] else [p]
  {
    assert [p][1..] == [];
  }

  /** The packets in responses so far to one client. */
  function CarriedTo(log: seq<Sent>, c: bytes): seq<bytes> {
    if log == [] then []
    else CarriedTo(log[..|log| - 1], c) + (if log[|log| - 1].rec.client == c then log[|log| - 1].packets else [])
  }

  lemma CarriedAppend(log: seq<Sent>, e: Sent, c: bytes)
    ensures CarriedTo(log + [e], c) == CarriedTo(log, c) + (if e.rec.client == c then e.packets else [])
  {
    assert (log + [e])[..|log|] == log;
  }

  function InBundle(loop: Loop, c: bytes): seq<bytes> {
    if loop.Selecting? && loop.bundle.rec.client == c then loop.bundle.packets else []
  }

  /** Everything of a client's packets that has left its queue, in order. */
  function Ahead(s: State, c: bytes): seq<bytes> {
    CarriedTo(s.log, c) + InBundle(s.loop, c) + Of(s.stashes, c)
  }

  predicate Conserved(s: State, c: bytes) {
    NonEmpty(Of(s.accepted, c)) == Ahead(s, c) + NonEmpty(Of(s.queues, c))
  }

  // ---------- The stash ----------

  /** A stash holds at most one packet, and not an empty one. */
  predicate SlotOk(stash: seq<bytes>) {
    |stash| <= 1 && NonEmpty(stash) == stash
  }

  predicate SlotsOk(stashes: map<bytes, seq<bytes>>) {
    forall c :: c in stashes ==> SlotOk(stashes[c])
  }

  /**
   * The loop sees nothing in the stash once a bundle has been started or the stash has been tried; and if
   * it has the stash of an expired record, there is nothing in a new one.
   */
  predicate BundleOk(s: State, level: Level, b: Bundle) {
    && (b.source.stash.Some? ==> SlotOk(b.source.stash.value) && Of(s.stashes, b.rec.client) == [])
    && (level == Open ==> b.packets == [] && b.source.queue.None?)
    && (level == Poll || level == Wait || b.packets != [] ==> StashSeen(s, b) == [])
  }

  predicate StashOk(s: State) {
    SlotsOk(s.stashes) && (s.loop.Selecting? ==> BundleOk(s, s.loop.level, s.loop.bundle))
  }

  lemma SlotFilled(stashes: map<bytes, seq<bytes>>, c: bytes, p: bytes)
    requires SlotsOk(stashes) && Of(stashes, c) == [] && p != []
    ensures SlotsOk(stashes[c := Enqueued(Of(stashes, c), p, 1)])
  {
    NonEmptyOne(p);
    assert [] + [p] == [p];
  }

  lemma TakePacketStashOk(s: State, b: Bundle, p: bytes)
    requires SlotsOk(s.stashes) && Of(s.stashes, b.rec.client) == [] && StashSeen(s, b) == []
    ensures StashOk(TakePacket(s, b, p))
  {
    if p != [] { SlotFilled(s.stashes, b.rec.client, p); }
  }

  lemma TakeFromStashOk(s: State, b: Bundle)
    requires StashOk(s) && s.loop.Selecting? && s.loop.bundle == b && StashSeen(s, b) != []
    ensures StashOk(TakeFromStash(s, b))
  {
    hide TakePacket;
    var c, p, rest := b.rec.client, StashSeen(s, b)[0], StashSeen(s, b)[1..];
    assert rest == [];
    if b.source.stash.None? {
      TakePacketStashOk(s.(stashes := s.stashes[c := rest]), b, p);
    } else {
      TakePacketStashOk(s, b.(source := b.source.(stash := Some(rest))), p);
    }
  }

  lemma TakeFromQueueOk(s: State, b: Bundle)
    requires StashOk(s) && s.loop.Selecting? && s.loop.bundle == b && StashSeen(s, b) == []
    requires QueueReady(s, b)
    ensures StashOk(TakeFromQueue(s, b))
  {
    if QueueSeen(s, b) != [] {
      hide TakePacket;
      var c, p, rest := b.rec.client, QueueSeen(s, b)[0], QueueSeen(s, b)[1..];
      if b.source.queue.None? {
        TakePacketStashOk(s.(queues := s.queues[c := rest]), b, p);
      } else {
        TakePacketStashOk(s, b.(source := b.source.(queue := Some(rest))), p);
      }
    }
  }

  lemma SelectStashOk(s: State, level: Level, b: Bundle, choice: Choice)
    requires StashOk(s) && s.loop == Selecting(level, b)
    ensures StashOk(DoSelect(s, level, b, choice))
  {
    hide TakeFromStash, TakeFromQueue;
    SelectOutcomes(s, level, b, choice);
    if StashSeen(s, b) != [] { TakeFromStashOk(s, b); }
    if (level == Poll || level == Wait) && QueueReady(s, b) { TakeFromQueueOk(s, b); }
  }

  lemma ExpireStashOk(s: State, gone: set<bytes>)
    requires StashOk(s)
    ensures StashOk(DoExpire(s, gone))
  {
  }

  lemma {:induction false} StepStashOk(cfg: Config, s: State, e: Event)
    requires StashOk(s)
    ensures StashOk(Step(cfg, s, e))
  {
    hide DoSelect, DoExpire, Receive, Parser.Parse;
    match e
    case LoopStep(choice) =>
      if s.loop.Selecting? { SelectStashOk(s, s.loop.level, s.loop.bundle, choice); }
    case Expire(gone) =>
      ExpireStashOk(s, gone);
    case _ =>
  }

  lemma {:induction false} StashesOk(cfg: Config, events: seq<Event>)
    ensures StashOk(Run(cfg, events))
  {
    if events != [] {
      var before := events[..|events| - 1];
      StashesOk(cfg, before);
      StepStashOk(cfg, Run(cfg, before), events[|events| - 1]);
    }
  }

  /**
   * In every run, whenever the loop has a packet that does not fit behind those already bundled, the slot
   * of that client's stash is free: the packet ends up alone in it, wherever it was taken from.
   */
  lemma {:induction false} StashNeverFull(cfg: Config, events: seq<Event>, queues: map<bytes, seq<bytes>>,
                                          source: Source, p: bytes)
    requires Run(cfg, events).loop.Selecting?
    requires var b := Run(cfg, events).loop.bundle;
      p != [] && b.packets != [] && b.limit < 2 + |p|
    ensures var b := Run(cfg, events).loop.bundle;
      var t := TakePacket(Run(cfg, events).(queues := queues), b.(source := source), p);
      Of(t.stashes, b.rec.client) == [p] && t.loop == Top(None)
  {
    StashesOk(cfg, events);
  }

  // ---------- Everything the server has of a client's packets ----------

  function Opt(ps: Option<seq<bytes>>): seq<bytes> {
    if ps.Some? then ps.value else []
  }

  /** What the loop alone still has of an expired record. */
  function Rest(source: Source): seq<bytes> {
    Opt(source.stash) + NonEmpty(Opt(source.queue))
  }

  function Behind(loop: Loop, c: bytes): seq<bytes> {
    if loop.Selecting? && loop.bundle.rec.client == c then Rest(loop.bundle.source) else []
  }

  /** All packets carried, bundled, stashed and queued, in the order in which they go out. */
  function All(s: State, c: bytes): seq<bytes> {
    Ahead(s, c) + Behind(s.loop, c) + NonEmpty(Of(s.queues, c))
  }

  /** The loop does not work with an expired record of this client. */
  predicate LiveFor(s: State, c: bytes) {
    s.loop.Selecting? && s.loop.bundle.rec.client == c ==> s.loop.bundle.source == LIVE
  }

  /** Packets may be dropped together with an expired record, and in no other way. */
  predicate Keeps(s: State, t: State, c: bytes) {
    && t.accepted == s.accepted && SubList(All(t, c), All(s, c))
    && (LiveFor(s, c) ==> LiveFor(t, c) && All(t, c) == All(s, c))
  }

  /** From one state to the next, what lay between two parts stays there or is dropped. */
  lemma KeepsParts(s: State, t: State, c: bytes, l: seq<bytes>, k: seq<bytes>, q: seq<bytes>)
    requires t.accepted == s.accepted && All(s, c) == l + k + q
    requires All(t, c) == l + k + q || All(t, c) == l + q
    requires LiveFor(s, c) ==> LiveFor(t, c) && k == []
    ensures Keeps(s, t, c)
  {
    DropMiddle(l, k, q);
    Reflexive(l + k + q);
    assert k == [] ==> l + k + q == l + q;
  }

  /** The loop is making this bundle; where it takes packets from does not matter. */
  predicate Making(s: State, b: Bundle) {
    s.loop.Selecting? && s.loop.bundle.rec == b.rec && s.loop.bundle.packets == b.packets
  }

  lemma FinishConserves(s: State, b: Bundle, next: Option<Record>, c: bytes)
    requires Making(s, b)
    ensures var t := Finish(s, b, next);
      CarriedTo(t.log, c) == CarriedTo(s.log, c) + InBundle(s.loop, c) && InBundle(t.loop, c) == []
  {
    var t := Finish(s, b, next);
    CarriedAppend(s.log, t.log[|s.log|], c);
  }

  /** A packet that does not fit any more is stashed, behind the bundle that is sent. */
  lemma OverflowConserves(s: State, b: Bundle, p: bytes, c: bytes)
    requires Making(s, b) && Of(s.stashes, b.rec.client) == []
    ensures var s1 := s.(stashes := s.stashes[b.rec.client := Enqueued(Of(s.stashes, b.rec.client), p, 1)]);
      Ahead(Finish(s1, b, None), c) == Ahead(s, c) + (if c == b.rec.client then [p] else [])
  {
    var s1 := s.(stashes := s.stashes[b.rec.client := Enqueued(Of(s.stashes, b.rec.client), p, 1)]);
    FinishConserves(s1, b, None, c);
    assert Of(s1.stashes, c) == Of(s.stashes, c) + (if c == b.rec.client then [p] else []);
  }

  lemma BundledConserves(s: State, b: Bundle, p: Packet, limit: int, c: bytes)
    requires Making(s, b) && Of(s.stashes, b.rec.client) == []
    ensures var t := s.(loop := Selecting(Probe, Bundle(b.rec, b.packets + [p], limit, b.source)));
      Ahead(t, c) == Ahead(s, c) + (if c == b.rec.client then [p] else [])
  {
    if c == b.rec.client {
      assert CarriedTo(s.log, c) + (b.packets + [p]) + [] == (CarriedTo(s.log, c) + b.packets + []) + [p];
    }
  }

  /** A packet received while the client's stash is empty ends up behind everything ahead of it, and nowhere else. */
  lemma {:induction false} TakePacketConserves(s: State, b: Bundle, p: bytes, c: bytes)
    requires Making(s, b) && Of(s.stashes, b.rec.client) == []
    ensures var t := TakePacket(s, b, p);
      && t.queues == s.queues && t.accepted == s.accepted
      && ((c == b.rec.client ==> b.source == LIVE) ==> LiveFor(t, c))
      && (Behind(t.loop, c) == [] || (c == b.rec.client && Behind(t.loop, c) == Rest(b.source)))
      && (t.loop.Crashed? || Ahead(t, c) == Ahead(s, c) + (if c == b.rec.client then NonEmpty([p]) else []))
  {
    NonEmptyOne(p);
    var limit := b.limit - (2 + |p|);
    if |p| == 0 {
      FinishConserves(s, b, None, c);
      assert Ahead(s, c) + [] == Ahead(Finish(s, b, None), c);
    } else if b.packets != [] && limit < 0 {
      OverflowConserves(s, b, p, c);
    } else if |p| < 0x1_0000 {
      BundledConserves(s, b, p, limit, c);
    }
  }

  lemma FinishKeeps(s: State, b: Bundle, ch: seq<Record>, next: Option<Record>, c: bytes)
    requires s.loop.Selecting? && s.loop.bundle == b
    ensures Keeps(s, Finish(s.(ch := ch), b, next), c)
  {
    var s1 := s.(ch := ch);
    var t := Finish(s1, b, next);
    FinishConserves(s1, b, next, c);
    assert Ahead(t, c) == Ahead(s, c) && Ahead(t, c) + [] == Ahead(t, c);
    KeepsParts(s, t, c, Ahead(s, c), Behind(s.loop, c), NonEmpty(Of(s.queues, c)));
  }

  /** A packet taken from the client's stash in the map. */
  lemma {:induction false} MapStashKeeps(s: State, b: Bundle, c: bytes)
    requires StashOk(s) && s.loop.Selecting? && s.loop.bundle == b
    requires b.source.stash.None? && Of(s.stashes, b.rec.client) != []
    ensures var t := TakeFromStash(s, b);
      t.loop.Crashed? || Keeps(s, t, c)
  {
    hide TakePacket, CarriedTo;
    var d, t := b.rec.client, TakeFromStash(s, b);
    var p := Of(s.stashes, d)[0];
    assert Of(s.stashes, d) == [p] && Of(s.stashes, d)[1..] == [];
    var s0 := s.(stashes := s.stashes[d := []]);
    TakePacketConserves(s0, b, p, c);
    if !t.loop.Crashed? {
      assert NonEmpty([p]) == [p];
      assert c == d ==> Ahead(s, c) == Ahead(s0, c) + [p];
      assert c != d ==> Ahead(s0, c) + [] == Ahead(s0, c) == Ahead(s, c);
      assert Ahead(t, c) + [] == Ahead(t, c);
      KeepsParts(s, t, c, Ahead(s, c), Behind(s.loop, c), NonEmpty(Of(s.queues, c)));
    }
  }

  /** The first packet of what the loop alone has, once it has been dealt with. */
  lemma {:induction false} OwnTaken(s: State, t: State, d: bytes, source: Source, p: bytes, rest: Source, c: bytes)
    requires s.loop.Selecting? && s.loop.bundle.rec.client == d && s.loop.bundle.source == source != LIVE
    requires Rest(source) == NonEmpty([p]) + Rest(rest)
    requires t.queues == s.queues && t.accepted == s.accepted && (c != d ==> LiveFor(t, c))
    requires Behind(t.loop, c) == [] || (c == d && Behind(t.loop, c) == Rest(rest))
    requires Ahead(t, c) == Ahead(s, c) + (if c == d then NonEmpty([p]) else [])
    ensures Keeps(s, t, c)
  {
    hide Ahead, NonEmpty, Rest;
    var l, q := Ahead(s, c), NonEmpty(Of(s.queues, c));
    if c == d {
      var x, k := NonEmpty([p]), Rest(rest);
      assert l + (x + k) + q == (l + x) + k + q;
      assert (l + x) + [] + q == (l + x) + q;
      KeepsParts(s, t, c, l + x, k, q);
    } else {
      assert (l + []) + [] + q == l + [] + q;
      KeepsParts(s, t, c, l, [], q);
    }
  }

  /** A packet taken from the stash of an expired record. */
  lemma {:induction false} OwnStashKeeps(s: State, b: Bundle, c: bytes)
    requires StashOk(s) && s.loop.Selecting? && s.loop.bundle == b
    requires b.source.stash.Some? && b.source.stash.value != []
    ensures var t := TakeFromStash(s, b);
      t.loop.Crashed? || Keeps(s, t, c)
  {
    hide TakePacket, CarriedTo, Keeps;
    var t, p := TakeFromStash(s, b), b.source.stash.value[0];
    assert b.source.stash.value == [p] && b.source.stash.value[1..] == [];
    var b1 := b.(source := b.source.(stash := Some([])));
    TakePacketConserves(s, b1, p, c);
    if !t.loop.Crashed? {
      var q := NonEmpty(Opt(b.source.queue));
      assert Rest(b.source) == [p] + q && Rest(b1.source) == [] + q == q;
      OwnTaken(s, t, b.rec.client, b.source, p, b1.source, c);
    }
  }

  /** A packet taken from the client's queue in the map. */
  lemma {:induction false} MapQueueKeeps(s: State, b: Bundle, c: bytes)
    requires StashOk(s) && s.loop.Selecting? && s.loop.bundle == b && StashSeen(s, b) == []
    requires b.source.queue.None? && Of(s.queues, b.rec.client) != []
    ensures var t := TakeFromQueue(s, b);
      t.loop.Crashed? || Keeps(s, t, c)
  {
    hide TakePacket, CarriedTo;
    var d, t := b.rec.client, TakeFromQueue(s, b);
    var p, rest := Of(s.queues, d)[0], Of(s.queues, d)[1..];
    var s0 := s.(queues := s.queues[d := rest]);
    TakePacketConserves(s0, b, p, c);
    if !t.loop.Crashed? {
      assert Ahead(s0, c) == Ahead(s, c) && Rest(b.source) == [];
      if c == d {
        assert Of(s.queues, d) == [p] + rest;
        NonEmptyConcat([p], rest);
        Assoc(Ahead(s, c), NonEmpty([p]), NonEmpty(rest));
        assert Ahead(s, c) + [] == Ahead(s, c) && Ahead(t, c) + [] == Ahead(t, c);
        KeepsParts(s, t, c, Ahead(t, c), [], NonEmpty(rest));
      } else {
        assert Ahead(s, c) + [] == Ahead(s, c);
        KeepsParts(s, t, c, Ahead(s, c), [], NonEmpty(Of(s.queues, c)));
      }
    }
  }

  /** A packet taken from the queue of an expired record. */
  lemma {:induction false} OwnQueueKeeps(s: State, b: Bundle, c: bytes)
    requires StashOk(s) && s.loop.Selecting? && s.loop.bundle == b && StashSeen(s, b) == []
    requires b.source.queue.Some? && b.source.queue.value != []
    ensures var t := TakeFromQueue(s, b);
      t.loop.Crashed? || Keeps(s, t, c)
  {
    hide TakePacket, CarriedTo, Keeps;
    var t := TakeFromQueue(s, b);
    var p, rest := b.source.queue.value[0], b.source.queue.value[1..];
    var b1 := b.(source := b.source.(queue := Some(rest)));
    TakePacketConserves(s, b1, p, c);
    if !t.loop.Crashed? {
      assert b.source.queue.value == [p] + rest;
      NonEmptyConcat([p], rest);
      assert Opt(b.source.stash) == [];
      assert Rest(b.source) == NonEmpty([p]) + NonEmpty(rest) && Rest(b1.source) == NonEmpty(rest);
      OwnTaken(s, t, b.rec.client, b.source, p, b1.source, c);
    }
  }

  lemma FromStashKeeps(s: State, b: Bundle, c: bytes)
    requires StashOk(s) && s.loop.Selecting? && s.loop.bundle == b && StashSeen(s, b) != []
    ensures var t := TakeFromStash(s, b);
      t.loop.Crashed? || Keeps(s, t, c)
  {
    hide Keeps, TakeFromStash, StashOk;
    if b.source.stash.None? { MapStashKeeps(s, b, c); } else { OwnStashKeeps(s, b, c); }
  }

  lemma FromQueueKeeps(s: State, b: Bundle, c: bytes)
    requires StashOk(s) && s.loop.Selecting? && s.loop.bundle == b && StashSeen(s, b) == []
    requires QueueReady(s, b)
    ensures var t := TakeFromQueue(s, b);
      t.loop.Crashed? || Keeps(s, t, c)
  {
    hide Keeps, StashOk, TakePacket, Finish;
    if QueueSeen(s, b) == [] {
      assert s.(ch := s.ch) == s;
      FinishKeeps(s, b, s.ch, None, c);
    } else if b.source.queue.None? {
      MapQueueKeeps(s, b, c);
    } else {
      OwnQueueKeeps(s, b, c);
    }
  }

  lemma Unchanged(s: State, t: State, c: bytes)
    requires t.accepted == s.accepted && t.queues == s.queues && t.stashes == s.stashes && t.log == s.log
    requires t.loop == s.loop
      || (s.loop.Selecting? && t.loop.Selecting? && t.loop.bundle == s.loop.bundle)
    ensures Keeps(s, t, c)
  {
    Reflexive(All(s, c));
  }

  lemma {:induction false} SelectKeeps(s: State, level: Level, b: Bundle, choice: Choice, c: bytes)
    requires StashOk(s) && s.loop == Selecting(level, b)
    ensures var t := DoSelect(s, level, b, choice);
      t.loop.Crashed? || Keeps(s, t, c)
  {
    hide TakeFromStash, TakeFromQueue, Keeps, DoSelect;
    SelectOutcomes(s, level, b, choice);
    var t := DoSelect(s, level, b, choice);
    if StashSeen(s, b) != [] && t == TakeFromStash(s, b) {
      FromStashKeeps(s, b, c);
    } else if (level == Poll || level == Wait) && QueueReady(s, b) && t == TakeFromQueue(s, b) {
      FromQueueKeeps(s, b, c);
    } else if t == Finish(s, b, None) {
      assert s.(ch := s.ch) == s;
      FinishKeeps(s, b, s.ch, None, c);
    } else if s.ch != [] && t == Finish(s.(ch := s.ch[1..]), b, Some(s.ch[0])) {
      FinishKeeps(s, b, s.ch[1..], Some(s.ch[0]), c);
    } else {
      Unchanged(s, t, c);
    }
  }

  lemma {:induction false} BeginKeeps(cfg: Config, s: State, ch: seq<Record>, rec: Record, c: bytes)
    requires s.loop.Top?
    ensures Keeps(s, Begin(cfg, s.(ch := ch), rec), c)
  {
    var t := Begin(cfg, s.(ch := ch), rec);
    if !rec.CarriesData() {
      CarriedAppend(s.log, t.log[|s.log|], c);
    }
    assert CarriedTo(t.log, c) == CarriedTo(s.log, c);
    assert All(t, c) == All(s, c);
    Reflexive(All(s, c));
  }

  lemma {:induction false} LoopKeeps(cfg: Config, s: State, choice: Choice, c: bytes)
    requires StashOk(s)
    ensures var t := DoLoopStep(cfg, s, choice);
      t.loop.Crashed? || Keeps(s, t, c)
  {
    hide Keeps, DoSelect, Begin, StashOk;
    match s.loop
    case Crashed =>
    case Top(Some(rec)) =>
      assert s.(ch := s.ch) == s;
      BeginKeeps(cfg, s, s.ch, rec, c);
    case Top(None) =>
      if s.ch != [] { BeginKeeps(cfg, s, s.ch[1..], s.ch[0], c); } else { Unchanged(s, s, c); }
    case Selecting(level, b) =>
      SelectKeeps(s, level, b, choice, c);
  }

  // ---------- Steps of the others ----------

  lemma WriteToAdds(s: State, d: bytes, p: bytes, c: bytes)
    ensures var t := DoWriteTo(s, d, p);
      var x := if c == d && t != s then NonEmpty([p]) else [];
      && t.loop == s.loop && All(t, c) == All(s, c) + x
      && NonEmpty(Of(t.accepted, c)) == NonEmpty(Of(s.accepted, c)) + x
  {
    var t := DoWriteTo(s, d, p);
    if c == d && t != s {
      NonEmptyConcat(Of(s.accepted, c), [p]);
      NonEmptyConcat(Of(s.queues, c), [p]);
    }
  }

  lemma DetachedRest(s: State, level: Level, b: Bundle)
    requires BundleOk(s, level, b)
    ensures Rest(Detached(s, level, b).source)
         <= Of(s.stashes, b.rec.client) + Rest(b.source) + NonEmpty(Of(s.queues, b.rec.client))
  {
  }

  lemma PrefixAfter(a: seq<bytes>, r: seq<bytes>, x: seq<bytes>, y: seq<bytes>, z: seq<bytes>)
    requires r <= x + y + z
    ensures (a + []) + r + [] <= (a + x) + y + z
  {
    assert (a + x) + y + z == a + (x + y + z);
  }

  lemma ExpireAccepts(s: State, gone: set<bytes>)
    ensures DoExpire(s, gone).accepted == s.accepted
  {
  }

  lemma ExpireOthers(s: State, gone: set<bytes>, c: bytes)
    requires c !in gone
    ensures var t := DoExpire(s, gone);
      All(t, c) == All(s, c) && (LiveFor(s, c) ==> LiveFor(t, c))
  {
    hide NonEmpty, CarriedTo, Rest;
  }

  /** Expiry drops packets only from the end. */
  lemma ExpireDrops(s: State, gone: set<bytes>, c: bytes)
    requires StashOk(s) && c in gone
    ensures All(DoExpire(s, gone), c) <= All(s, c)
  {
    hide CarriedTo, Rest, Detached;
    var t := DoExpire(s, gone);
    assert Of(t.queues, c) == [] && Of(t.stashes, c) == [] && NonEmpty([]) == [];
    var x, z := Of(s.stashes, c), NonEmpty(Of(s.queues, c));
    if s.loop.Selecting? && s.loop.bundle.rec.client == c {
      DetachedRest(s, s.loop.level, s.loop.bundle);
    }
    PrefixAfter(CarriedTo(s.log, c) + InBundle(s.loop, c), Behind(t.loop, c), x, Behind(s.loop, c), z);
  }

  lemma PrefixIsSubList<T>(a: seq<T>, b: seq<T>)
    requires a <= b
    ensures SubList(a, b)
  {
    Reflexive(a);
    AppendRight(a, a, b[|a|..]);
    assert a + b[|a|..] == b;
  }

  // ---------- Runs ----------

  /** What the server has of a client's packets is an in-order part of what it accepted. */
  predicate Followed(s: State, c: bytes) {
    s.loop.Crashed? || SubList(All(s, c), NonEmpty(Of(s.accepted, c)))
  }

  predicate Tracked(s: State, c: bytes) {
    s.loop.Crashed? || (LiveFor(s, c) && All(s, c) == NonEmpty(Of(s.accepted, c)))
  }

  lemma {:induction false} StepFollows(cfg: Config, s: State, e: Event, c: bytes)
    requires StashOk(s) && Followed(s, c)
    ensures Followed(Step(cfg, s, e), c)
    ensures Tracked(s, c) && !(e.Expire? && c in e.gone) ==> Tracked(Step(cfg, s, e), c)
  {
    hide DoLoopStep, DoExpire, DoWriteTo, Receive, Parser.Parse, All, StashOk;
    if s.loop.Crashed? { CrashedStays(cfg, s, e); return; }
    var t, acc := Step(cfg, s, e), NonEmpty(Of(s.accepted, c));
    match e
    case WriteTo(d, p) =>
      WriteToAdds(s, d, p, c);
      AppendBoth(All(s, c), acc, if c == d && t != s then NonEmpty([p]) else []);
    case Datagram(buf, addr) =>
      DatagramRecord(cfg, s, buf, addr);
      Unchanged(s, t, c);
      Transitive(All(t, c), All(s, c), acc);
    case Expire(gone) =>
      if c in gone { ExpireDrops(s, gone, c); } else { ExpireOthers(s, gone, c); }
      assert t.accepted == s.accepted by { ExpireAccepts(s, gone); }
      PrefixIsSubList(All(t, c), All(s, c));
      Transitive(All(t, c), All(s, c), acc);
    case LoopStep(choice) =>
      LoopKeeps(cfg, s, choice, c);
      if !t.loop.Crashed? { Transitive(All(t, c), All(s, c), acc); }
  }

  lemma CrashedStays(cfg: Config, s: State, e: Event)
    requires s.loop.Crashed?
    ensures Step(cfg, s, e).loop.Crashed?
  {
  }

  /** The client's record stays in the map. */
  predicate NeverExpires(events: seq<Event>, c: bytes) {
    forall i :: 0 <= i < |events| ==> !(events[i].Expire? && c in events[i].gone)
  }

  lemma {:induction false} RunFollows(cfg: Config, events: seq<Event>, c: bytes)
    ensures Followed(Run(cfg, events), c)
    ensures NeverExpires(events, c) ==> Tracked(Run(cfg, events), c)
  {
    if events == [] {
      assert NonEmpty([]) == [];
    } else {
      var before := events[..|events| - 1];
      RunFollows(cfg, before, c);
      StashesOk(cfg, before);
      StepFollows(cfg, Run(cfg, before), events[|events| - 1], c);
    }
  }

  /**
   * In every interleaving, whatever expires and when: the packets in a client's responses, in the bundle
   * being made for it, in its stash, those the loop still has of an expired record of it, and those in its
   * queue are, in this order, an in-order part of the non-empty packets accepted for it. None is duplicated,
   * reordered, or sent to another client.
   */
  lemma {:induction false} PacketsNeverReordered(cfg: Config, events: seq<Event>, c: bytes)
    ensures var s := Run(cfg, events);
      s.loop.Crashed?
      || SubList(Ahead(s, c) + Behind(s.loop, c) + NonEmpty(Of(s.queues, c)), NonEmpty(Of(s.accepted, c)))
  {
    RunFollows(cfg, events, c);
  }

  /**
   * And for every client whose record does not expire, whatever happens to others, none is lost: the
   * packets accepted for it are, in order, those in its responses, those in the bundle being made, the
   * stashed one, and those still queued.
   */
  lemma {:induction false} PacketsConserved(cfg: Config, events: seq<Event>, c: bytes)
    requires NeverExpires(events, c)
    ensures Run(cfg, events).loop.Crashed? || Conserved(Run(cfg, events), c)
  {
    RunFollows(cfg, events, c);
    var s := Run(cfg, events);
    if !s.loop.Crashed? {
      assert Behind(s.loop, c) == [];
      assert Ahead(s, c) + [] == Ahead(s, c);
    }
  }
}
