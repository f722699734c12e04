/** The channels of the remote map do what the send loop's state machine says of its queues and stashes. */
module Refinement {
  import opened Bytes
  import opened RemoteMaps
  import opened QueuePacketConns
  import opened SendLoop

  /** Every client's channels in the map hold what the state says. */
  ghost predicate Represents(m: RemoteMap, s: State)
    reads m.inner, Queues(m.inner.records), Stashes(m.inner.records)
  {
    forall a :: m.QueueOf(a) == Of(s.queues, a) && m.StashOf(a) == Of(s.stashes, a)
  }

  /** The stash channel that the loop has is the client's, or still has what that of an expired record had. */
  ghost predicate StashMatches(s: State, records: map<Addr, RemoteRecord>, unstash: Chan, items: seq<bytes>) {
    s.loop.Selecting? ==>
      var b := s.loop.bundle;
      && items == StashSeen(s, b)
      && (b.source.stash.None? ==> b.rec.client in records && unstash == records[b.rec.client].stash)
  }

  /** The same of the queue, which is closed if its record has expired. */
  ghost predicate QueueMatches(s: State, records: map<Addr, RemoteRecord>,
                               outgoing: Chan, items: seq<bytes>, closed: bool) {
    s.loop.Selecting? && s.loop.level != Open ==>
      var b := s.loop.bundle;
      && items == QueueSeen(s, b)
      && (b.source.queue.None? ==> b.rec.client in records && outgoing == records[b.rec.client].sendQueue)
      && (b.source.queue.Some? ==> closed)
  }

  ghost predicate HoldsStash(m: RemoteMap, s: State, unstash: Chan)
    reads m.inner, unstash
  {
    StashMatches(s, m.inner.records, unstash, unstash.items)
  }

  ghost predicate HoldsQueue(m: RemoteMap, s: State, outgoing: Chan)
    reads m.inner, outgoing
  {
    QueueMatches(s, m.inner.records, outgoing, outgoing.items, outgoing.closed)
  }

  /** WriteTo is the step of the same name, or does nothing once the connection is closed. */
  method WriteToRefines(conn: QueuePacketConn, p: bytes, addr: Addr, now: int, ghost s: State) returns (ok: bool)
    requires conn.remotes.inner.Valid() && Represents(conn.remotes, s)
    modifies conn.remotes.inner, conn.remotes.inner.byAge, Queues(conn.remotes.inner.records)
    ensures conn.remotes.inner.Valid() && ok == !conn.closed
    ensures Represents(conn.remotes, if ok then DoWriteTo(s, addr, p) else s)
  {
    hide RemoteMap.QueueOf, RemoteMap.StashOf, RemoteMapInner.Valid;
    ok := conn.WriteTo(p, addr, now);
  }

  /** What sendLoop does with a packet that does not fit. */
  method StashRefines(m: RemoteMap, addr: Addr, p: bytes, now: int, ghost s: State)
    requires m.inner.Valid() && Represents(m, s)
    modifies m.inner, m.inner.byAge, Stashes(m.inner.records)
    ensures m.inner.Valid()
    ensures Represents(m, s.(stashes := s.stashes[addr := Enqueued(Of(s.stashes, addr), p, 1)]))
  {
    hide RemoteMap.QueueOf, RemoteMap.StashOf, RemoteMapInner.Valid;
    var _ := m.Stash(addr, p, now);
  }

  /** The loop gets its first channel. */
  method UnstashRefines(m: RemoteMap, cfg: Config, rec: Record, now: int, ghost s: State) returns (unstash: Chan)
    requires m.inner.Valid() && Represents(m, s) && rec.CarriesData()
    modifies m.inner, m.inner.byAge
    ensures m.inner.Valid() && Represents(m, Begin(cfg, s, rec)) && HoldsStash(m, Begin(cfg, s, rec), unstash)
  {
    unstash := m.Unstash(rec.client, now);
    assert m.StashOf(rec.client) == Of(s.stashes, rec.client);
  }

  /** The loop gets its second channel, perhaps of another record than the first. */
  method OutgoingQueueRefines(m: RemoteMap, client: Addr, now: int, ghost s: State, ghost choice: Choice,
                              ghost unstash: Chan)
    returns (outgoing: Chan)
    requires m.inner.Valid() && Represents(m, s) && HoldsStash(m, s, unstash)
    requires s.loop.Selecting? && s.loop.level == Open && s.loop.bundle.rec.client == client
    requires s.loop.bundle.source.queue.None?
    modifies m.inner, m.inner.byAge
    ensures m.inner.Valid()
    ensures var t := DoSelect(s, Open, s.loop.bundle, choice);
      Represents(m, t) && HoldsStash(m, t, unstash) && HoldsQueue(m, t, outgoing)
  {
    outgoing := m.SendQueue(client, now);
    assert m.QueueOf(client) == Of(s.queues, client);
  }

  lemma MapsAfterExpiry(s: State, gone: set<bytes>)
    ensures var t := DoExpire(s, gone);
      forall a :: Of(t.queues, a) == (if a in gone then [] else Of(s.queues, a))
               && Of(t.stashes, a) == (if a in gone then [] else Of(s.stashes, a))
  {
  }

  /** The loop sees the same packets before and after an expiry. */
  lemma LoopAfterExpiry(s: State, gone: set<bytes>)
    requires s.loop.Selecting?
    ensures var t, level, b := DoExpire(s, gone), s.loop.level, s.loop.bundle;
      && t.loop.Selecting? && t.loop.level == level && t.loop.bundle.rec == b.rec
      && StashSeen(t, t.loop.bundle) == StashSeen(s, b)
      && (level != Open ==> QueueSeen(t, t.loop.bundle) == QueueSeen(s, b))
      && if b.rec.client in gone
         then t.loop.bundle.source.stash.Some? && (level != Open ==> t.loop.bundle.source.queue.Some?)
         else t.loop.bundle == b
  {
  }

  lemma LoopKept(s: State, gone: set<bytes>)
    ensures s.loop.Selecting? <==> DoExpire(s, gone).loop.Selecting?
  {
  }

  /** The records of some clients, and no others, leave the map. */
  ghost predicate Dropped(before: map<Addr, RemoteRecord>, after: map<Addr, RemoteRecord>, gone: set<Addr>) {
    forall a :: a in before && a !in gone ==> a in after && after[a] == before[a]
  }

  lemma StashStillMatches(s: State, gone: set<Addr>, before: map<Addr, RemoteRecord>, after: map<Addr, RemoteRecord>,
                          unstash: Chan, items: seq<bytes>)
    requires StashMatches(s, before, unstash, items) && Dropped(before, after, gone)
    ensures StashMatches(DoExpire(s, gone), after, unstash, items)
  {
    hide DoExpire, StashSeen, QueueSeen;
    LoopKept(s, gone);
    if s.loop.Selecting? { LoopAfterExpiry(s, gone); }
  }

  lemma QueueStillMatches(s: State, gone: set<Addr>, before: map<Addr, RemoteRecord>, after: map<Addr, RemoteRecord>,
                          outgoing: Chan, items: seq<bytes>, closed: bool, nowClosed: bool)
    requires QueueMatches(s, before, outgoing, items, closed) && Dropped(before, after, gone)
    requires closed ==> nowClosed
    requires forall a :: a in before && a in gone && before[a].sendQueue == outgoing ==> nowClosed
    ensures QueueMatches(DoExpire(s, gone), after, outgoing, items, nowClosed)
  {
    hide DoExpire, StashSeen, QueueSeen;
    LoopKept(s, gone);
    if s.loop.Selecting? { LoopAfterExpiry(s, gone); }
  }

  lemma ClosedNotKnown(m: RemoteMap, q: Chan)
    requires m.inner.Valid()
    ensures q.closed ==> q !in Queues(m.inner.records)
  {
  }

  /** removeExpired is the expiry of the clients that have not been looked up for so long. */
  method ExpiryRefines(m: RemoteMap, now: int, timeout: int, ghost s: State, ghost unstash: Chan, ghost outgoing: Chan)
    returns (ghost gone: set<Addr>)
    requires m.inner.Valid() && Represents(m, s) && HoldsStash(m, s, unstash) && HoldsQueue(m, s, outgoing)
    modifies m.inner, Queues(m.inner.records)`closed
    ensures gone == Expired(old(m.inner.seen), now, timeout)
    ensures m.inner.Valid()
    ensures var t := DoExpire(s, gone);
      Represents(m, t) && HoldsStash(m, t, unstash) && HoldsQueue(m, t, outgoing)
  {
    hide Expired, DoExpire, RemoteMap.QueueOf, RemoteMap.StashOf, RemoteMapInner.Valid, StashMatches, QueueMatches;
    gone := Expired(m.inner.seen, now, timeout);
    ClosedNotKnown(m, outgoing);
    ghost var before, closed := m.inner.records, outgoing.closed;
    m.RemoveExpired(now, timeout);
    MapsAfterExpiry(s, gone);
    StashStillMatches(s, gone, before, m.inner.records, unstash, unstash.items);
    QueueStillMatches(s, gone, before, m.inner.records, outgoing, outgoing.items, closed, outgoing.closed);
  }
}
