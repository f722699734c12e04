/** Remote peers by address and by age: a binary heap with a reverse index, updated in place. */
module RemoteMaps {
  import opened Bytes
  import opened HeapOrder

  type Addr = bytes

  const QUEUE_SIZE := 1024

  /** A buffered channel of packets. */
  class Chan {
    var items: seq<bytes>
    var closed: bool
    const capacity: nat

    constructor (capacity: nat)
      ensures items == [] && !closed && this.capacity == capacity
    {
      items := [];
      closed := false;
      this.capacity := capacity;
    }

    /** A send in a select that has a default case. */
    method TrySend(p: bytes) returns (sent: bool)
      requires !closed
      modifies this`items
      ensures sent == (|old(items)| < capacity)
      ensures items == if sent then old(items) + [p] else old(items)
    {
      sent := |items| < capacity;
      if sent { items := items + [p]; }
    }
  }

  class RemoteRecord {
    const addr: Addr
    var lastSeen: int
    const sendQueue: Chan
    const stash: Chan

    constructor (addr: Addr, now: int)
      ensures this.addr == addr && lastSeen == now
      ensures fresh(sendQueue) && sendQueue.items == [] && !sendQueue.closed && sendQueue.capacity == QUEUE_SIZE
      ensures fresh(stash) && stash.items == [] && !stash.closed && stash.capacity == 1
      ensures sendQueue != stash
    {
      this.addr := addr;
      lastSeen := now;
      sendQueue := new Chan(QUEUE_SIZE);
      stash := new Chan(1);
    }
  }

  predicate SameFrom<T(==)>(s: seq<T>, t: seq<T>, n: nat) {
    |s| == |t| && forall k :: n <= k < |s| ==> s[k] == t[k]
  }

  /** byAge and byAddr are inverse to each other, and hold exactly the given records. */
  ghost predicate IndexOk(byAge: seq<RemoteRecord>, byAddr: map<Addr, nat>, records: map<Addr, RemoteRecord>) {
    && byAddr.Keys == records.Keys
    && (forall i {:trigger byAge[i].addr} :: 0 <= i < |byAge| ==> byAge[i].addr in byAddr && byAddr[byAge[i].addr] == i)
    && (forall a {:trigger byAddr[a]} {:trigger records[a]} :: a in byAddr ==>
          byAddr[a] < |byAge| && byAge[byAddr[a]] == records[a] && records[a].addr == a)
  }

  /** Each place's key is the time its record's address was last seen. */
  ghost predicate KeysOk(byAge: seq<RemoteRecord>, keys: seq<int>, seen: map<Addr, int>) {
    && |keys| == |byAge|
    && forall i {:trigger byAge[i].addr} :: 0 <= i < |byAge| ==>
         byAge[i].addr in seen && keys[i] == seen[byAge[i].addr]
  }

  lemma IndexAfterSwap(byAge: seq<RemoteRecord>, byAddr: map<Addr, nat>, records: map<Addr, RemoteRecord>,
                       i: nat, j: nat)
    requires IndexOk(byAge, byAddr, records) && i < |byAge| && j < |byAge|
    ensures var s := Swapped(byAge, i, j);
      IndexOk(s, byAddr[s[i].addr := i][s[j].addr := j], records)
  {
    var s := Swapped(byAge, i, j);
    var m := byAddr[s[i].addr := i][s[j].addr := j];
    assert m.Keys == byAddr.Keys;
    forall k | 0 <= k < |s| ensures s[k].addr in m && m[s[k].addr] == k {
      assert s[k] == byAge[if k == i then j else if k == j then i else k];
    }
    forall a | a in m ensures m[a] < |s| && s[m[a]] == records[a] && records[a].addr == a {
      assert byAge[byAddr[a]] == records[a];
      assert a == s[j].addr ==> byAddr[a] == i;
      assert a == s[i].addr ==> byAddr[a] == j;
    }
  }

  lemma IndexAfterPush(byAge: seq<RemoteRecord>, byAddr: map<Addr, nat>, records: map<Addr, RemoteRecord>,
                       r: RemoteRecord)
    requires IndexOk(byAge, byAddr, records) && r.addr !in byAddr
    ensures IndexOk(byAge + [r], byAddr[r.addr := |byAge|], records[r.addr := r])
  {
  }

  lemma IndexAfterPop(byAge: seq<RemoteRecord>, byAddr: map<Addr, nat>, records: map<Addr, RemoteRecord>)
    requires IndexOk(byAge, byAddr, records) && byAge != []
    ensures var r := byAge[|byAge| - 1];
      IndexOk(byAge[..|byAge| - 1], byAddr - {r.addr}, records - {r.addr})
  {
  }

  lemma KeysAfterSwap(byAge: seq<RemoteRecord>, keys: seq<int>, seen: map<Addr, int>, i: nat, j: nat)
    requires KeysOk(byAge, keys, seen) && i < |byAge| && j < |byAge|
    ensures KeysOk(Swapped(byAge, i, j), Swapped(keys, i, j), seen)
  {
  }

  lemma KeysAfterPush(byAge: seq<RemoteRecord>, byAddr: map<Addr, nat>, records: map<Addr, RemoteRecord>,
                      keys: seq<int>, seen: map<Addr, int>, r: RemoteRecord, now: int)
    requires IndexOk(byAge, byAddr, records) && KeysOk(byAge, keys, seen) && r.addr !in byAddr
    ensures KeysOk(byAge + [r], keys + [now], seen[r.addr := now])
  {
  }

  lemma KeysAfterPop(byAge: seq<RemoteRecord>, byAddr: map<Addr, nat>, records: map<Addr, RemoteRecord>,
                     keys: seq<int>, seen: map<Addr, int>)
    requires IndexOk(byAge, byAddr, records) && KeysOk(byAge, keys, seen) && byAge != []
    ensures KeysOk(byAge[..|byAge| - 1], keys[..|byAge| - 1], seen - {byAge[|byAge| - 1].addr})
  {
  }

  /** The two views have the same size, so that Len never panics. */
  lemma {:induction false} SameSize(byAge: seq<RemoteRecord>, byAddr: map<Addr, nat>, records: map<Addr, RemoteRecord>)
    requires IndexOk(byAge, byAddr, records)
    ensures |byAge| == |byAddr|
  {
    if byAge == [] {
      assert forall a :: a !in byAddr;
      assert byAddr == map[];
    } else {
      var r := byAge[|byAge| - 1];
      IndexAfterPop(byAge, byAddr, records);
      SameSize(byAge[..|byAge| - 1], byAddr - {r.addr}, records - {r.addr});
      assert byAddr == (byAddr - {r.addr})[r.addr := |byAge| - 1];
    }
  }

  /** If the root is younger than the timeout, so is everything else: the early stop misses nothing. */
  lemma RootYoungerAllYounger(byAge: seq<RemoteRecord>, byAddr: map<Addr, nat>, records: map<Addr, RemoteRecord>,
                              keys: seq<int>, seen: map<Addr, int>, now: int, timeout: int)
    requires IndexOk(byAge, byAddr, records) && KeysOk(byAge, keys, seen) && seen.Keys == records.Keys
    requires Ordered(keys, |keys|) && (keys == [] || now - keys[0] < timeout)
    ensures Younger(seen, now, timeout) == seen
  {
    forall a | a in seen ensures now - seen[a] < timeout {
      assert byAge[byAddr[a]].addr == a;
      RootLeast(keys, byAddr[a]);
    }
  }

  /** Taking away an entry that is due to expire does not change which entries are younger. */
  lemma YoungerWithout(seen: map<Addr, int>, a: Addr, now: int, timeout: int)
    requires a in seen && now - seen[a] >= timeout
    ensures Younger(seen - {a}, now, timeout) == Younger(seen, now, timeout)
  {
  }

  /** Each record has one place in the heap. */
  lemma DistinctPlaces(byAge: seq<RemoteRecord>, byAddr: map<Addr, nat>, records: map<Addr, RemoteRecord>)
    requires IndexOk(byAge, byAddr, records)
    ensures forall i, j :: 0 <= i < |byAge| && 0 <= j < |byAge| && i != j ==> byAge[i].addr != byAge[j].addr
  {
  }

  /** The send queues of the records. */
  ghost function Queues(records: map<Addr, RemoteRecord>): set<Chan> {
    set a | a in records :: records[a].sendQueue
  }

  /** No channel has two owners or two roles, and the channels have the sizes they were made with. */
  ghost predicate Distinct(records: map<Addr, RemoteRecord>) {
    && (forall a, b :: a in records && b in records && a != b ==>
          records[a].sendQueue != records[b].sendQueue && records[a].stash != records[b].stash)
    && (forall a, b :: a in records && b in records ==> records[a].sendQueue != records[b].stash)
    && (forall a :: a in records ==> records[a].sendQueue.capacity == QUEUE_SIZE && records[a].stash.capacity == 1)
  }

  ghost function Stashes(records: map<Addr, RemoteRecord>): set<Chan> {
    set a | a in records :: records[a].stash
  }

  /** Sending to a peer in the map never meets a closed channel. */
  ghost predicate AllOpen(records: map<Addr, RemoteRecord>)
    reads Queues(records), Stashes(records)
  {
    forall a :: a in records ==> !records[a].sendQueue.closed && !records[a].stash.closed
  }

  /** The entries that are younger than the timeout. */
  ghost function Younger(seen: map<Addr, int>, now: int, timeout: int): map<Addr, int> {
    map a | a in seen && now - seen[a] < timeout :: seen[a]
  }

  /** remoteMapInner: the heap by age, and each address's place in it. */
  class RemoteMapInner {
    var byAge: seq<RemoteRecord>
    var byAddr: map<Addr, nat>
    /** What the map represents: the record of each address. */
    ghost var records: map<Addr, RemoteRecord>
    /** When each address was last looked up. */
    ghost var seen: map<Addr, int>
    /** The keys of the heap: when each record was last seen. */
    ghost var keys: seq<int>

    ghost predicate Indexed()
      reads this, byAge
    {
      && IndexOk(byAge, byAddr, records) && KeysOk(byAge, keys, seen) && seen.Keys == records.Keys
      && forall i :: 0 <= i < |keys| ==> keys[i] == byAge[i].lastSeen
    }

    constructor ()
      ensures Indexed() && records == map[] && seen == map[] && keys == []
    {
      byAge := [];
      byAddr := map[];
      records := map[];
      seen := map[];
      keys := [];
    }

    // ---------- heap.Interface ----------

    /** Len panics if the two views have different sizes; a consistent index rules that out. */
    method Len() returns (n: nat)
      requires Indexed()
      ensures n == |byAge|
    {
      SameSize(byAge, byAddr, records);
      if |byAge| != |byAddr| { assert false; }
      n := |byAge|;
    }

    method Less(i: nat, j: nat) returns (less: bool)
      requires Indexed() && i < |byAge| && j < |byAge|
      ensures less == (keys[i] < keys[j])
    {
      less := byAge[i].lastSeen < byAge[j].lastSeen;
    }

    method Swap(i: nat, j: nat)
      requires Indexed() && i < |byAge| && j < |byAge|
      modifies this`byAge, this`byAddr, this`keys
      ensures Indexed()
      ensures byAge == Swapped(old(byAge), i, j) && keys == Swapped(old(keys), i, j)
    {
      IndexAfterSwap(byAge, byAddr, records, i, j);
      KeysAfterSwap(byAge, keys, seen, i, j);
      byAge := byAge[i := byAge[j]][j := byAge[i]];
      byAddr := byAddr[byAge[i].addr := i];
      byAddr := byAddr[byAge[j].addr := j];
      keys := Swapped(keys, i, j);
    }

    /** Push panics on a duplicate address; that is its precondition here. */
    method Push(record: RemoteRecord)
      requires Indexed() && record.addr !in byAddr
      modifies this
      ensures Indexed()
      ensures byAge == old(byAge) + [record] && keys == old(keys) + [record.lastSeen]
      ensures records == old(records)[record.addr := record] && seen == old(seen)[record.addr := record.lastSeen]
    {
      ghost var now := record.lastSeen;
      IndexAfterPush(byAge, byAddr, records, record);
      KeysAfterPush(byAge, byAddr, records, keys, seen, record, now);
      byAddr := byAddr[record.addr := |byAge|];
      byAge := byAge + [record];
      records, keys, seen := records[record.addr := record], keys + [now], seen[record.addr := now];
    }

    method Pop() returns (record: RemoteRecord)
      requires Indexed() && byAge != []
      modifies this
      ensures Indexed() && record == old(byAge[|byAge| - 1])
      ensures byAge == old(byAge[..|byAge| - 1]) && keys == old(keys[..|byAge| - 1])
      ensures records == old(records) - {record.addr} && seen == old(seen) - {record.addr}
    {
      IndexAfterPop(byAge, byAddr, records);
      KeysAfterPop(byAge, byAddr, records, keys, seen);
      SameSize(byAge, byAddr, records);
      var n := |byAddr|;
      record := byAge[n - 1];
      byAge := byAge[..n - 1];
      byAddr := byAddr - {record.addr};
      records := records - {record.addr};
      keys := keys[..n - 1];
      seen := seen - {record.addr};
    }

    // ---------- container/heap ----------

    method Up(start: nat)
      requires Indexed() && start < |byAge| && OrderedButUp(keys, start)
      modifies this`byAge, this`byAddr, this`keys
      ensures Indexed() && |keys| == |old(keys)| && Ordered(keys, |keys|)
    {
      var j: nat := start;
      while true
        invariant Indexed() && j < |keys| == |old(keys)| && OrderedButUp(keys, j)
        decreases j
      {
        var i: nat := if j == 0 then 0 else (j - 1) / 2;
        if i == j { break; }
        var less := Less(j, i);
        if !less { break; }
        UpStep(keys, j);
        Swap(i, j);
        j := i;
      }
      UpDone(keys, j);
    }

    /** The child of i, within the first n places, with the smaller key. */
    method SmallerChild(i: nat, n: nat) returns (j: nat)
      requires Indexed() && 2 * i + 1 < n <= |byAge|
      ensures 0 < j < n && Parent(j) == i
      ensures ChildrenAtLeast(keys, n, i, keys[j])
    {
      j := 2 * i + 1;
      var j2 := j + 1;
      if j2 < n {
        var right := Less(j2, j);
        if right { j := j2; }
      }
      assert forall c :: 0 < c < n && Parent(c) == i ==> c == 2 * i + 1 || c == 2 * i + 2;
    }

    /** One turn of the loop in down: the smaller child moves up, unless none is smaller. */
    method SiftDown(ghost start: nat, i: nat, n: nat) returns (j: nat)
      requires Indexed() && 2 * i + 1 < n <= |byAge| && OrderedButDown(keys, n, start, i)
      modifies this`byAge, this`byAddr, this`keys
      ensures Indexed() && SameFrom(byAge, old(byAge), n) && |keys| == |byAge| && i <= j < n
      ensures OrderedButDown(keys, n, start, j)
      ensures j == i ==> ChildrenAtLeast(keys, n, i, keys[i])
    {
      j := SmallerChild(i, n);
      var less := Less(j, i);
      if !less { return i; }
      DownStep(keys, n, start, i, j);
      Swap(i, j);
    }

    method Down(start: nat, n: nat) returns (moved: bool)
      requires Indexed() && start < |byAge| && n <= |byAge| && OrderedButDown(keys, n, start, start)
      modifies this`byAge, this`byAddr, this`keys
      ensures Indexed() && SameFrom(byAge, old(byAge), n)
      ensures moved || start == 0 ==> Ordered(keys, n)
      ensures !moved && n == |keys| ==> OrderedButUp(keys, start)
    {
      var i: nat := start;
      while 2 * i + 1 < n
        invariant Indexed() && SameFrom(byAge, old(byAge), n)
        invariant start <= i < |keys| && OrderedButDown(keys, n, start, i)
        decreases |keys| - i
      {
        var j := SiftDown(start, i, n);
        if j == i { break; }
        i := j;
      }
      assert ChildrenAtLeast(keys, n, i, keys[i]);
      DownDone(keys, n, start, i);
      moved := i > start;
    }

    method Fix(i: nat)
      requires Indexed() && i < |byAge| && OrderedButDown(keys, |keys|, i, i)
      modifies this`byAge, this`byAddr, this`keys
      ensures Indexed() && |keys| == |old(keys)| && Ordered(keys, |keys|)
    {
      var n := Len();
      var moved := Down(i, n);
      if !moved {
        Up(i);
      }
    }

    method HeapPush(record: RemoteRecord)
      requires Indexed() && Ordered(keys, |keys|) && record.addr !in byAddr
      modifies this
      ensures Indexed() && Ordered(keys, |keys|)
      ensures records == old(records)[record.addr := record] && seen == old(seen)[record.addr := record.lastSeen]
    {
      KeyAppended(keys, record.lastSeen);
      Push(record);
      var n := Len();
      Up(n - 1);
    }

    /** The first two steps of heap.Pop: the root goes to the end, and the rest becomes a heap again. */
    method RootToEnd(n: nat)
      requires Indexed() && |byAge| == n + 1 && Ordered(keys, |keys|)
      modifies this`byAge, this`byAddr, this`keys
      ensures Indexed() && |byAge| == n + 1 && byAge[n] == old(byAge[0]) && Ordered(keys, n)
    {
      RootReplaced(keys);
      Swap(0, n);
      var _ := Down(0, n);
    }

    method HeapPop() returns (record: RemoteRecord)
      requires Indexed() && Ordered(keys, |keys|) && byAge != []
      modifies this
      ensures Indexed() && Ordered(keys, |keys|) && |byAge| == |old(byAge)| - 1
      ensures record == old(byAge[0]) && records == old(records) - {record.addr} && seen == old(seen) - {record.addr}
    {
      var n := Len();
      RootToEnd(n - 1);
      OrderedPrefix(keys, n - 1);
      record := Pop();
    }

    // ---------- Lookup and expiry ----------

    /** Everything that holds between operations. */
    ghost predicate Valid()
      reads this, byAge, Queues(records), Stashes(records)
    {
      Indexed() && Ordered(keys, |keys|) && Distinct(records) && AllOpen(records)
    }

    /** The assignment to LastSeen, before the heap is repaired. */
    method SetLastSeen(i: nat, now: int)
      requires Indexed() && i < |byAge|
      modifies this`keys, this`seen, byAge[i]
      ensures Indexed() && keys == old(keys)[i := now] && seen == old(seen)[byAge[i].addr := now]
    {
      DistinctPlaces(byAge, byAddr, records);
      byAge[i].lastSeen := now;
      keys := keys[i := now];
      seen := seen[byAge[i].addr := now];
    }

    /** Lookup of a peer that is already known. */
    method Touch(addr: Addr, now: int) returns (record: RemoteRecord)
      requires Indexed() && Ordered(keys, |keys|) && addr in byAddr
      modifies this`byAge, this`byAddr, this`keys, this`seen, byAge
      ensures Indexed() && Ordered(keys, |keys|) && record == records[addr]
      ensures seen == old(seen)[addr := now]
    {
      var i := byAddr[addr];
      record := byAge[i];
      KeyChanged(keys, i, now);
      SetLastSeen(i, now);
      Fix(i);
    }

    /** Lookup of a peer seen for the first time. */
    method Create(addr: Addr, now: int) returns (record: RemoteRecord)
      requires Valid() && addr !in byAddr
      modifies this
      ensures Valid()
      ensures records == old(records)[addr := record] && seen == old(seen)[addr := now]
      ensures fresh(record) && fresh(record.sendQueue) && fresh(record.stash)
      ensures record.sendQueue.items == [] && record.stash.items == []
    {
      record := new RemoteRecord(addr, now);
      HeapPush(record);
    }

    method Lookup(addr: Addr, now: int) returns (record: RemoteRecord)
      requires Valid()
      modifies this, byAge
      ensures Valid() && seen == old(seen)[addr := now]
      ensures addr in old(records) ==> records == old(records) && record == records[addr]
      ensures addr !in old(records) ==>
        && records == old(records)[addr := record]
        && fresh(record) && fresh(record.sendQueue) && fresh(record.stash)
        && record.sendQueue.items == [] && record.stash.items == []
    {
      if addr in byAddr {
        record := Touch(addr, now);
      } else {
        record := Create(addr, now);
      }
    }

    /** Removes the least recently seen record and closes its queue. */
    method DropOldest() returns (record: RemoteRecord)
      requires Valid() && byAge != []
      modifies this, {byAge[0].sendQueue}`closed
      ensures Valid() && |byAge| < |old(byAge)|
      ensures record == old(byAge[0]) && record.addr in old(records) && old(records)[record.addr] == record
      ensures records == old(records) - {record.addr} && seen == old(seen) - {record.addr}
      ensures record.sendQueue.closed
    {
      record := HeapPop();
      record.sendQueue.closed := true;
    }

    /** What is left of these records, while the expired ones are being dropped: every missing one is closed. */
    ghost predicate Left(all: map<Addr, RemoteRecord>)
      reads this`records, Queues(all)
    {
      && (forall a :: a in records ==> a in all && records[a] == all[a])
      && (forall a :: a in all ==> a in records || all[a].sendQueue.closed)
    }

    /** One turn of the loop in removeExpired. */
    method DropExpired(ghost all: map<Addr, RemoteRecord>, now: int, timeout: int)
      requires Valid() && Left(all) && byAge != [] && now - keys[0] >= timeout
      modifies this, Queues(records)`closed
      ensures Valid() && Left(all) && |byAge| < |old(byAge)| && Queues(records) <= old(Queues(records))
      ensures Younger(seen, now, timeout) == Younger(old(seen), now, timeout)
    {
      YoungerWithout(seen, byAge[0].addr, now, timeout);
      var _ := DropOldest();
    }

    /** Closes and drops the records not looked up for at least timeout, oldest first, up to the first younger one. */
    method RemoveExpired(now: int, timeout: int)
      requires Valid()
      modifies this, Queues(records)`closed
      ensures Valid()
      ensures seen == Younger(old(seen), now, timeout)
      ensures Left(old(records))
    {
      ghost var all, was := records, seen;
      while |byAge| > 0 && now - byAge[0].lastSeen >= timeout
        invariant Valid() && Left(all) && Queues(records) <= Queues(all)
        invariant Younger(seen, now, timeout) == Younger(was, now, timeout)
        decreases |byAge|
      {
        DropExpired(all, now, timeout);
      }
      RootYoungerAllYounger(byAge, byAddr, records, keys, seen, now, timeout);
    }
  }

  // ---------- Runs ----------

  datatype Operation = LookUp(addr: Addr, now: int) | Expire(now: int, timeout: int)

  /** What an operation does to the plain map from addresses to times. */
  ghost function Apply(seen: map<Addr, int>, op: Operation): map<Addr, int> {
    match op
    case LookUp(addr, now) => seen[addr := now]
    case Expire(now, timeout) => Younger(seen, now, timeout)
  }

  ghost function RunFrom(seen: map<Addr, int>, ops: seq<Operation>): map<Addr, int> {
    if ops == [] then seen else Apply(RunFrom(seen, ops[..|ops| - 1]), ops[|ops| - 1])
  }

  ghost function Run(ops: seq<Operation>): map<Addr, int> {
    RunFrom(map[], ops)
  }

  /** The address is in the map before, between and after the operations. */
  ghost predicate Stays(seen: map<Addr, int>, ops: seq<Operation>, a: Addr) {
    a in RunFrom(seen, ops) && (ops == [] || Stays(seen, ops[..|ops| - 1], a))
  }

  /** One operation: a record that is in the map before and after it is the same object. */
  method Perform(m: RemoteMapInner, op: Operation)
    requires m.Valid()
    modifies m, m.byAge, Queues(m.records)`closed
    ensures m.Valid() && m.seen == Apply(old(m.seen), op)
    ensures forall a :: a in m.records ==>
              if a in old(m.records) then m.records[a] == old(m.records)[a]
              else fresh(m.records[a]) && fresh(m.records[a].sendQueue)
  {
    match op
    case LookUp(addr, now) =>
      var _ := m.Lookup(addr, now);
    case Expire(now, timeout) =>
      m.RemoveExpired(now, timeout);
  }

  /** What is in the map is in the heap. */
  lemma PlacesKnown(byAge: seq<RemoteRecord>, byAddr: map<Addr, nat>, records: map<Addr, RemoteRecord>)
    requires IndexOk(byAge, byAddr, records)
    ensures forall a :: a in records ==> records[a] in byAge
  {
  }

  /**
   * A run on a map: it does what the plain map does, and the record of an address stays the same object
   * for as long as the address stays in the map, and no longer.
   */
  method Continue(m: RemoteMapInner, ops: seq<Operation>)
    requires m.Valid()
    modifies m, m.byAge, Queues(m.records)`closed
    ensures m.Valid() && m.seen == RunFrom(old(m.seen), ops)
    ensures forall a :: a in old(m.records) && a in m.records ==>
              if Stays(old(m.seen), ops, a) then m.records[a] == old(m.records)[a] else fresh(m.records[a])
  {
    ghost var seen, records := m.seen, m.records;
    PlacesKnown(m.byAge, m.byAddr, m.records);
    for i := 0 to |ops|
      invariant m.Valid() && m.seen == RunFrom(seen, ops[..i])
      invariant forall a :: a in m.records ==>
                  if a in records && Stays(seen, ops[..i], a) then m.records[a] == records[a]
                  else fresh(m.records[a]) && fresh(m.records[a].sendQueue)
    {
      assert ops[..i + 1][..i] == ops[..i];
      forall k | 0 <= k < |m.byAge| ensures m.byAge[k] in old(m.byAge) || fresh(m.byAge[k]) {
        var a := m.byAge[k].addr;
        assert m.records[a] == m.byAge[k];
        if a in records && m.records[a] == records[a] { assert records[a] in old(m.byAge); }
      }
      Perform(m, ops[i]);
    }
    assert ops[..|ops|] == ops;
  }

  /** Any run, from the empty map. */
  method Replay(ops: seq<Operation>) returns (m: RemoteMapInner)
    ensures m.Valid() && m.seen == Run(ops)
  {
    m := new RemoteMapInner();
    Continue(m, ops);
  }

  /** Operation i looks up a, and none after it does so again or expires a. */
  ghost predicate LastsFrom(ops: seq<Operation>, a: Addr, i: nat) {
    && i < |ops| && ops[i].LookUp? && ops[i].addr == a
    && forall j :: i < j < |ops| ==>
         if ops[j].LookUp? then ops[j].addr != a else ops[j].now - ops[i].now < ops[j].timeout
  }

  /**
   * After any run, an address is in the map exactly when no expiry since its last lookup came a timeout or
   * more later; it then holds the time of that lookup.
   */
  lemma {:induction false} AliveSinceLastLookup(ops: seq<Operation>, a: Addr)
    ensures a in Run(ops) <==> exists i: nat :: LastsFrom(ops, a, i)
    ensures forall i: nat :: LastsFrom(ops, a, i) ==> a in Run(ops) && Run(ops)[a] == ops[i].now
    decreases |ops|
  {
    if ops != [] {
      var n := |ops| - 1;
      var before := ops[..n];
      AliveSinceLastLookup(before, a);
      forall i: nat | LastsFrom(ops, a, i) ensures a in Run(ops) && Run(ops)[a] == ops[i].now {
        if i < n { assert LastsFrom(before, a, i); }
      }
      if a in Run(ops) {
        if ops[n].LookUp? && ops[n].addr == a {
          assert LastsFrom(ops, a, n);
        } else {
          var i: nat :| LastsFrom(before, a, i);
          assert LastsFrom(ops, a, i);
        }
      }
    }
  }
}
