/**
 * The message writer: names are compressed by pointing at the last usable copy of a suffix.
 *
 * Built is the writer's state as a value. Its first two fields are those of messageBuilder; depth and
 * worst are bookkeeping of this model: how many pointers a reader follows from each cached offset, and
 * the largest number of pointers that any name written so far needs.
 */
module Writer {
  import opened Bytes
  import opened Names
  import opened Messages

  const MAX_POINTER_TARGET := 0x3fff

  datatype Built = Built(w: bytes, cache: map<bytes, nat>, depth: map<bytes, nat>, worst: nat)

  const EMPTY: Built := Built([], map[], map[], 0)

  /** The suffix has been written before, at an offset that fits in a pointer. */
  predicate Usable(b: Built, suffix: Name) {
    var key := Print(suffix);
    key in b.cache && b.cache[key] <= MAX_POINTER_TARGET
  }

  function Depth(b: Built, suffix: Name): nat {
    if Print(suffix) in b.depth then b.depth[Print(suffix)] else 0
  }

  /** How many pointers a reader follows in name, if it were written next. */
  function Hops(b: Built, name: Name): nat {
    if name == [] then 0
    else if Usable(b, name) then Depth(b, name) + 1
    else Hops(b, name[1..])
  }

  function Append(b: Built, data: bytes): Built {
    b.(w := b.w + data)
  }

  function Pointer(target: nat): bytes
    requires target <= MAX_POINTER_TARGET
  {
    U16(0xc000 + target)
  }

  /** Caches the whole of name at the current offset, and writes its first label. */
  function PutLabel(b: Built, name: Name, hops: nat): Built
    requires name != [] && ValidLabel(name[0])
  {
    b.(w := b.w + ([|name[0]|] + name[0]),
       cache := b.cache[Print(name) := |b.w|],
       depth := b.depth[Print(name) := hops])
  }

  function PutName(b: Built, name: Name, hops: nat): Built
    requires ValidLabels(name)
    decreases |name|
  {
    if name == [] then Append(b, [0])
    else if Usable(b, name) then Append(b, Pointer(b.cache[Print(name)]))
    else PutName(PutLabel(b, name, hops), name[1..], hops)
  }

  function WriteName(b: Built, name: Name): Built
    requires ValidLabels(name)
  {
    var hops := Hops(b, name);
    PutName(b, name, hops).(worst := Max(b.worst, hops))
  }

  function WriteQuestion(b: Built, q: Question): Built
    requires ValidLabels(q.name)
  {
    Append(WriteName(b, q.name), U16s([q.typ, q.class_]))
  }

  /** Everything in a resource record before its RDATA length. */
  function WriteRRHead(b: Built, rr: RR): Built
    requires ValidLabels(rr.name)
  {
    Append(WriteName(b, rr.name), U16s([rr.typ, rr.class_]) + U32(rr.ttl))
  }

  function WriteRR(b: Built, rr: RR): Built
    requires ValidLabels(rr.name) && |rr.data| < 0x1_0000
  {
    Append(WriteRRHead(b, rr), U16(|rr.data|) + rr.data)
  }

  function WriteQuestions(b: Built, qs: seq<Question>): Built
    requires WritableQuestions(qs)
    decreases |qs|
  {
    if qs == [] then b else WriteQuestions(WriteQuestion(b, qs[0]), qs[1..])
  }

  function WriteRRs(b: Built, rrs: seq<RR>): Built
    requires WritableRRs(rrs) && RDataFits(rrs)
    decreases |rrs|
  {
    if rrs == [] then b else WriteRRs(WriteRR(b, rrs[0]), rrs[1..])
  }

  /** The six header fields, in order. */
  function Fields(m: Message): (r: seq<u16>)
    requires CountsFit(m)
    ensures |r| == 6
  {
    [m.id, m.flags, |m.question|, |m.answer|, |m.authority|, |m.additional|]
  }

  function WriteMessage(b: Built, m: Message): Built
    requires WritableNames(m) && Fits(m)
  {
    var h := Append(b, U16s(Fields(m)));
    WriteRRs(WriteRRs(WriteRRs(WriteQuestions(h, m.question), m.answer), m.authority), m.additional)
  }

  function WireFormat(m: Message): Result<bytes>
    requires WritableNames(m)
  {
    if Fits(m) then Ok(WriteMessage(EMPTY, m).w) else Err(IntegerOverflow)
  }

  /** The largest number of compression pointers that any name of the message needs once written. */
  function PointersNeeded(m: Message): nat
    requires WritableNames(m) && Fits(m)
  {
    WriteMessage(EMPTY, m).worst
  }
}
