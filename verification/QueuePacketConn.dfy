/** Packet queues by peer, on top of the remote map: bounded send queues, one-slot stashes, and a receive queue. */
module QueuePacketConns {
  import opened Bytes
  import opened RemoteMaps

  /** A bounded queue after an attempt to add a packet: unchanged if it is full. */
  function Enqueued<T>(q: seq<T>, p: T, capacity: nat): seq<T> {
    if |q| < capacity then q + [p] else q
  }

  /** The peers not looked up for at least timeout. */
  ghost function Expired(seen: map<Addr, int>, now: int, timeout: int): set<Addr> {
    set a | a in seen && now - seen[a] >= timeout
  }

  lemma KnownPeers(inner: RemoteMapInner)
    requires inner.Valid()
    ensures inner.records.Keys == inner.seen.Keys
  {
  }

  class RemoteMap {
    const inner: RemoteMapInner

    constructor ()
      ensures inner.Valid() && fresh(inner) && inner.records == map[]
    {
      inner := new RemoteMapInner();
    }

    /** The packets waiting for a peer; none if the peer is not in the map. */
    ghost function QueueOf(a: Addr): seq<bytes>
      reads inner, Queues(inner.records)
    {
      if a in inner.records then inner.records[a].sendQueue.items else []
    }

    ghost function StashOf(a: Addr): seq<bytes>
      reads inner, Stashes(inner.records)
    {
      if a in inner.records then inner.records[a].stash.items else []
    }

    /** Lookup of a known peer touches nothing that a channel holds. */
    method Refresh(addr: Addr, now: int) returns (record: RemoteRecord)
      requires inner.Valid() && addr in inner.records
      modifies inner, inner.byAge
      ensures inner.Valid() && inner.records == old(inner.records) && record == inner.records[addr]
      ensures inner.seen == old(inner.seen)[addr := now]
      ensures forall a :: QueueOf(a) == old(QueueOf(a))
      ensures forall a :: StashOf(a) == old(StashOf(a))
    {
      record := inner.Lookup(addr, now);
    }

    /** Lookup of a new peer adds a record with empty channels. */
    method Admit(addr: Addr, now: int) returns (record: RemoteRecord)
      requires inner.Valid() && addr !in inner.records
      modifies inner
      ensures inner.Valid() && inner.records == old(inner.records)[addr := record]
      ensures inner.seen == old(inner.seen)[addr := now]
      ensures fresh(record) && fresh(record.sendQueue) && fresh(record.stash)
      ensures forall a :: QueueOf(a) == old(QueueOf(a))
      ensures forall a :: StashOf(a) == old(StashOf(a))
    {
      record := inner.Create(addr, now);
    }

    /** The record of a peer, created if need be; the packets waiting for anyone stay as they are. */
    method Lookup(addr: Addr, now: int) returns (record: RemoteRecord)
      requires inner.Valid()
      modifies inner, inner.byAge
      ensures inner.Valid() && addr in inner.records && record == inner.records[addr]
      ensures inner.seen == old(inner.seen)[addr := now]
      ensures addr in old(inner.records) ==> inner.records == old(inner.records)
      ensures addr !in old(inner.records) ==>
        var r := inner.records[addr];
        && inner.records == old(inner.records)[addr := r] && fresh(r) && fresh(r.sendQueue) && fresh(r.stash)
      ensures forall a :: QueueOf(a) == old(QueueOf(a))
      ensures forall a :: StashOf(a) == old(StashOf(a))
    {
      if addr in inner.byAddr {
        record := Refresh(addr, now);
      } else {
        record := Admit(addr, now);
      }
    }

    /** The read path does not refresh the time the peer was last seen. */
    method SendQueue(addr: Addr, now: int) returns (q: Chan)
      requires inner.Valid()
      modifies inner, inner.byAge
      ensures inner.Valid() && addr in inner.records && q == inner.records[addr].sendQueue
      ensures addr in old(inner.records) ==> inner.records == old(inner.records) && inner.seen == old(inner.seen)
      ensures addr !in old(inner.records) ==> inner.seen == old(inner.seen)[addr := now]
      ensures addr !in old(inner.records) ==>
        var r := inner.records[addr];
        && inner.records == old(inner.records)[addr := r] && fresh(r) && fresh(r.sendQueue) && fresh(r.stash)
      ensures forall a :: QueueOf(a) == old(QueueOf(a)) && StashOf(a) == old(StashOf(a))
    {
      if addr in inner.byAddr {
        return inner.byAge[inner.byAddr[addr]].sendQueue;
      }
      var record := Lookup(addr, now);
      q := record.sendQueue;
    }

    method Unstash(addr: Addr, now: int) returns (s: Chan)
      requires inner.Valid()
      modifies inner, inner.byAge
      ensures inner.Valid() && addr in inner.records && s == inner.records[addr].stash
      ensures addr in old(inner.records) ==> inner.records == old(inner.records) && inner.seen == old(inner.seen)
      ensures addr !in old(inner.records) ==> inner.seen == old(inner.seen)[addr := now]
      ensures addr !in old(inner.records) ==>
        var r := inner.records[addr];
        && inner.records == old(inner.records)[addr := r] && fresh(r) && fresh(r.sendQueue) && fresh(r.stash)
      ensures forall a :: QueueOf(a) == old(QueueOf(a)) && StashOf(a) == old(StashOf(a))
    {
      if addr in inner.byAddr {
        return inner.byAge[inner.byAddr[addr]].stash;
      }
      var record := Lookup(addr, now);
      s := record.stash;
    }

    /** A send to one peer's queue affects no other queue and no stash. */
    method TrySendQueue(addr: Addr, p: bytes)
      requires inner.Valid() && addr in inner.records
      modifies {inner.records[addr].sendQueue}`items
      ensures inner.Valid()
      ensures forall a :: StashOf(a) == old(StashOf(a))
      ensures QueueOf(addr) == Enqueued(old(QueueOf(addr)), p, QUEUE_SIZE)
      ensures forall a :: a != addr ==> QueueOf(a) == old(QueueOf(a))
    {
      var _ := inner.byAge[inner.byAddr[addr]].sendQueue.TrySend(p);
    }

    method TrySendStash(addr: Addr, p: bytes) returns (stashed: bool)
      requires inner.Valid() && addr in inner.records
      modifies {inner.records[addr].stash}`items
      ensures inner.Valid() && stashed == (|old(StashOf(addr))| < 1)
      ensures forall a :: QueueOf(a) == old(QueueOf(a))
      ensures StashOf(addr) == Enqueued(old(StashOf(addr)), p, 1)
      ensures forall a :: a != addr ==> StashOf(a) == old(StashOf(a))
    {
      stashed := inner.byAge[inner.byAddr[addr]].stash.TrySend(p);
    }

    /** Stash refreshes the time, as Lookup does. */
    method Stash(addr: Addr, p: bytes, now: int) returns (stashed: bool)
      requires inner.Valid()
      modifies inner, inner.byAge, Stashes(inner.records)
      ensures inner.Valid() && inner.seen == old(inner.seen)[addr := now] && addr in inner.records
      ensures addr in old(inner.records) ==> inner.records == old(inner.records)
      ensures addr !in old(inner.records) ==>
        var r := inner.records[addr];
        && inner.records == old(inner.records)[addr := r] && fresh(r) && fresh(r.sendQueue) && fresh(r.stash)
      ensures stashed == (|old(StashOf(addr))| < 1)
      ensures forall a :: QueueOf(a) == old(QueueOf(a))
      ensures StashOf(addr) == Enqueued(old(StashOf(addr)), p, 1)
      ensures forall a :: a != addr ==> StashOf(a) == old(StashOf(a))
    {
      var _ := Lookup(addr, now);
      stashed := TrySendStash(addr, p);
    }

    /** What the goroutine started by NewRemoteMap does from time to time. */
    method RemoveExpired(now: int, timeout: int)
      requires inner.Valid()
      modifies inner, Queues(inner.records)`closed
      ensures inner.Valid() && inner.seen == Younger(old(inner.seen), now, timeout)
      ensures inner.records.Keys <= old(inner.records).Keys
      ensures var gone := Expired(old(inner.seen), now, timeout);
        forall a :: a in old(inner.records) ==>
          if a in gone then a !in inner.records && old(inner.records)[a].sendQueue.closed
          else a in inner.records && inner.records[a] == old(inner.records)[a]
      ensures var gone := Expired(old(inner.seen), now, timeout);
        forall a :: QueueOf(a) == (if a in gone then [] else old(QueueOf(a)))
                 && StashOf(a) == (if a in gone then [] else old(StashOf(a)))
    {
      hide RemoteMapInner.Valid, Expired, Younger;
      ghost var seen, records := inner.seen, inner.records;
      KnownPeers(inner);
      inner.RemoveExpired(now, timeout);
      KnownPeers(inner);
      ExpiredOrYounger(seen, now, timeout);
      assert inner.records.Keys == records.Keys - Expired(seen, now, timeout);
    }
  }

  /** Taking away everything that is not younger takes away exactly what has expired. */
  lemma ExpiredOrYounger(seen: map<Addr, int>, now: int, timeout: int)
    ensures Younger(seen, now, timeout).Keys == seen.Keys - Expired(seen, now, timeout)
  {
  }

  // ---------- Runs of the public methods ----------

  datatype Use =
    | UseQueue(addr: Addr, now: int)
    | UseStash(addr: Addr, now: int)
    | Put(addr: Addr, p: bytes, now: int)
    | Expire(now: int, timeout: int)

  /** What a call does to the plain map from addresses to times: only Put refreshes a time. */
  ghost function ApplyUse(seen: map<Addr, int>, use: Use): map<Addr, int> {
    match use
    case UseQueue(addr, now) => if addr in seen then seen else seen[addr := now]
    case UseStash(addr, now) => if addr in seen then seen else seen[addr := now]
    case Put(addr, _, now) => seen[addr := now]
    case Expire(now, timeout) => Younger(seen, now, timeout)
  }

  ghost function UseRun(uses: seq<Use>): map<Addr, int> {
    if uses == [] then map[] else ApplyUse(UseRun(uses[..|uses| - 1]), uses[|uses| - 1])
  }

  method PerformUse(m: RemoteMap, use: Use)
    requires m.inner.Valid()
    modifies m.inner, m.inner.byAge, Stashes(m.inner.records), Queues(m.inner.records)`closed
    ensures m.inner.Valid() && m.inner.seen == ApplyUse(old(m.inner.seen), use)
    ensures forall a :: a in m.inner.records ==>
              var r := m.inner.records[a];
              (a in old(m.inner.records) && r == old(m.inner.records)[a])
              || (fresh(r) && fresh(r.sendQueue) && fresh(r.stash))
  {
    hide RemoteMap.QueueOf, RemoteMap.StashOf, RemoteMapInner.Valid, Younger;
    KnownPeers(m.inner);
    match use
    case UseQueue(addr, now) => var _ := m.SendQueue(addr, now);
    case UseStash(addr, now) => var _ := m.Unstash(addr, now);
    case Put(addr, p, now) => var _ := m.Stash(addr, p, now);
    case Expire(now, timeout) => m.RemoveExpired(now, timeout);
  }

  /** Any run of the public methods, from the empty map. */
  method ReplayUses(uses: seq<Use>) returns (m: RemoteMap)
    ensures m.inner.Valid() && m.inner.seen == UseRun(uses)
  {
    m := new RemoteMap();
    for i := 0 to |uses|
      invariant m.inner.Valid() && m.inner.seen == UseRun(uses[..i]) && fresh(m.inner)
      invariant forall a :: a in m.inner.records ==>
                  var r := m.inner.records[a];
                  fresh(r) && fresh(r.sendQueue) && fresh(r.stash)
    {
      assert uses[..i + 1][..i] == uses[..i];
      forall k | 0 <= k < |m.inner.byAge| ensures fresh(m.inner.byAge[k]) {
        assert m.inner.records[m.inner.byAge[k].addr] == m.inner.byAge[k];
      }
      PerformUse(m, uses[i]);
    }
    assert uses[..|uses|] == uses;
  }

  /** Call i gives a its time, by creating or stashing, and no later call refreshes or expires it. */
  ghost predicate DatedBy(uses: seq<Use>, a: Addr, i: nat) {
    && i < |uses| && !uses[i].Expire? && uses[i].addr == a && (uses[i].Put? || a !in UseRun(uses[..i]))
    && forall j :: i < j < |uses| ==>
         (uses[j].Put? ==> uses[j].addr != a)
         && (uses[j].Expire? ==> uses[j].now - uses[i].now < uses[j].timeout)
  }

  lemma {:induction false} DatedIsPresent(uses: seq<Use>, a: Addr, i: nat)
    requires DatedBy(uses, a, i)
    ensures a in UseRun(uses) && UseRun(uses)[a] == uses[i].now
    decreases |uses|
  {
    var n := |uses| - 1;
    var before := uses[..n];
    if i < n {
      assert uses[..i] == before[..i];
      DatedIsPresent(before, a, i);
    }
  }

  lemma {:induction false} PresentIsDated(uses: seq<Use>, a: Addr)
    requires a in UseRun(uses)
    ensures exists i: nat :: DatedBy(uses, a, i)
    decreases |uses|
  {
    var n := |uses| - 1;
    var before := uses[..n];
    if a !in UseRun(before) || (uses[n].Put? && uses[n].addr == a) {
      assert DatedBy(uses, a, n);
    } else {
      PresentIsDated(before, a);
      var i: nat :| DatedBy(before, a, i);
      assert uses[..i] == before[..i];
      DatedIsPresent(before, a, i);
      assert DatedBy(uses, a, i);
    }
  }

  /**
   * After any run of the public methods, a peer is present exactly if no expiry came a timeout or more
   * after it was created or last had a packet stashed, however often it was used in between.
   */
  lemma {:induction false} AliveSinceCreatedOrStashed(uses: seq<Use>, a: Addr)
    ensures a in UseRun(uses) <==> exists i: nat :: DatedBy(uses, a, i)
    ensures forall i: nat :: DatedBy(uses, a, i) ==> a in UseRun(uses) && UseRun(uses)[a] == uses[i].now
  {
    hide UseRun;
    forall i: nat | DatedBy(uses, a, i) ensures a in UseRun(uses) && UseRun(uses)[a] == uses[i].now {
      DatedIsPresent(uses, a, i);
    }
    if a in UseRun(uses) { PresentIsDated(uses, a); }
  }

  datatype Incoming = Incoming(p: bytes, addr: Addr)

  /** QueuePacketConn, with the current time as an argument where the map may record it. */
  class QueuePacketConn {
    const remotes: RemoteMap
    var recvQueue: seq<Incoming>
    var closed: bool

    constructor ()
      ensures remotes.inner.Valid() && fresh(remotes.inner) && remotes.inner.records == map[]
      ensures recvQueue == [] && !closed
    {
      remotes := new RemoteMap();
      recvQueue := [];
      closed := false;
    }

    /** Drops the packet if the connection is closed or the queue full. */
    method QueueIncoming(p: bytes, addr: Addr)
      modifies this`recvQueue
      ensures recvQueue == if closed then old(recvQueue) else Enqueued(old(recvQueue), Incoming(p, addr), 1024)
    {
      if closed { return; }
      if |recvQueue| < QUEUE_SIZE {
        recvQueue := recvQueue + [Incoming(p, addr)];
      }
    }

    /**
     * None when the connection is closed; an open connection blocks until there is a packet. The caller's
     * buffer of the given size receives the packet, or as much of it as it can hold.
     */
    method ReadFrom(size: nat) returns (r: Option<Incoming>)
      requires closed || recvQueue != []
      modifies this`recvQueue
      ensures if closed then r == None && recvQueue == old(recvQueue)
              else
                && recvQueue == old(recvQueue)[1..]
                && r.Some? && r.value.addr == old(recvQueue)[0].addr
                && r.value.p <= old(recvQueue)[0].p
                && (r.value.p == old(recvQueue)[0].p || |r.value.p| == size < |old(recvQueue)[0].p|)
    {
      if closed { return None; }
      var packet := recvQueue[0];
      recvQueue := recvQueue[1..];
      return Some(Incoming(if |packet.p| > size then packet.p[..size] else packet.p, packet.addr));
    }

    /** Adds the packet to its peer's queue, or drops it if that is full; false when the connection is closed. */
    method WriteTo(p: bytes, addr: Addr, now: int) returns (ok: bool)
      requires remotes.inner.Valid()
      modifies remotes.inner, remotes.inner.byAge, Queues(remotes.inner.records)
      ensures remotes.inner.Valid() && ok == !closed
      ensures forall a :: remotes.StashOf(a) == old(remotes.StashOf(a))
      ensures remotes.QueueOf(addr) ==
        if ok then Enqueued(old(remotes.QueueOf(addr)), p, 1024) else old(remotes.QueueOf(addr))
      ensures forall a :: a != addr ==> remotes.QueueOf(a) == old(remotes.QueueOf(a))
    {
      if closed { return false; }
      var _ := remotes.SendQueue(addr, now);
      remotes.TrySendQueue(addr, p);
      return true;
    }

    method Close() returns (newlyClosed: bool)
      modifies this`closed
      ensures closed && newlyClosed == !old(closed)
    {
      newlyClosed := !closed;
      closed := true;
    }
  }

  /**
   * WriteTo on an open connection, if an expiry comes between its lookup and its send. Sending on the
   * closed queue panics: that happens exactly if the peer was created or last had a packet stashed at
   * least timeout before.
   */
  method InterruptedWriteTo(conn: QueuePacketConn, p: bytes, addr: Addr, now: int, later: int, timeout: int)
    returns (panics: bool)
    requires conn.remotes.inner.Valid() && !conn.closed
    modifies conn.remotes.inner, conn.remotes.inner.byAge, Queues(conn.remotes.inner.records)
    ensures conn.remotes.inner.Valid()
    ensures var seen := old(conn.remotes.inner.seen);
      panics <==> later - (if addr in seen then seen[addr] else now) >= timeout
    ensures !panics ==> conn.remotes.QueueOf(addr) == Enqueued(old(conn.remotes.QueueOf(addr)), p, QUEUE_SIZE)
  {
    hide RemoteMap.QueueOf, RemoteMap.StashOf, RemoteMapInner.Valid;
    KnownPeers(conn.remotes.inner);
    var q := conn.remotes.SendQueue(addr, now);
    KnownPeers(conn.remotes.inner);
    conn.remotes.RemoveExpired(later, timeout);
    panics := q.closed;
    if addr in conn.remotes.inner.records { OpenQueue(conn.remotes.inner, addr); }
    if !panics {
      conn.remotes.TrySendQueue(addr, p);
    }
  }

  lemma OpenQueue(inner: RemoteMapInner, addr: Addr)
    requires inner.Valid() && addr in inner.records
    ensures !inner.records[addr].sendQueue.closed
  {
  }
}
