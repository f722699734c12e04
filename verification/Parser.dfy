/** What the message reader finds at each position of a buffer, as functions of the buffer. */
module Parser {
  import opened Bytes
  import opened Names
  import opened Messages

  const POINTER_LIMIT := 10

  /** The labels read from a position, where the reader resumes, and how many pointers were followed. */
  datatype Walked = Walked(labels: Name, end: nat, hops: nat)

  function PointerTarget(hi: byte, lo: byte): nat
    requires hi >= 0xc0
  {
    var upper: int := hi - 0xc0;
    upper * 0x100 + lo
  }

  /** Follows labels and pointers from pos, spending at most budget pointers. */
  function Walk(buf: bytes, pos: nat, budget: nat): Result<Walked>
    decreases budget, |buf| - pos
  {
    if pos >= |buf| then Err(EOF)
    else
      var t := buf[pos];
      if t == 0 then Ok(Walked([], pos + 1, 0))
      else if t < 0x40 then
        var l :- Take(buf, pos + 1, t);
        var rest :- Walk(buf, l.end, budget);
        Ok(rest.(labels := [l.item] + rest.labels))
      else if t >= 0xc0 then
        var lo :- Take(buf, pos + 1, 1);
        if budget == 0 then Err(TooManyPointers)
        else
          var rest :- Walk(buf, PointerTarget(t, lo.item[0]), budget - 1);
          Ok(Walked(rest.labels, lo.end, rest.hops + 1))
      else Err(ReservedLabelType)
  }

  function ReadName(buf: bytes, pos: nat): Result<Parsed<Name>> {
    var walked :- Walk(buf, pos, POINTER_LIMIT);
    var name :- CheckName(walked.labels);
    Ok(Parsed(name, walked.end))
  }

  function ReadQuestion(buf: bytes, pos: nat): Result<Parsed<Question>> {
    var name :- ReadName(buf, pos);
    var fields :- TakeU16s(buf, name.end, 2);
    Ok(Parsed(Question(name.item, fields.item[0], fields.item[1]), fields.end))
  }

  /** The fixed-width fields of a record after its name, and its data. */
  function ReadRRTail(buf: bytes, name: Name, pos: nat): Result<Parsed<RR>> {
    var fields :- TakeU16s(buf, pos, 2);
    var ttl :- TakeU32(buf, fields.end);
    var rdLength :- TakeU16(buf, ttl.end);
    var data :- Take(buf, rdLength.end, rdLength.item);
    Ok(Parsed(RR(name, fields.item[0], fields.item[1], ttl.item, data.item), data.end))
  }

  function ReadRR(buf: bytes, pos: nat): Result<Parsed<RR>> {
    var name :- ReadName(buf, pos);
    ReadRRTail(buf, name.item, name.end)
  }

  function ReadQuestions(buf: bytes, pos: nat, count: nat): Result<Parsed<seq<Question>>>
    decreases count
  {
    if count == 0 then Ok(Parsed([], pos))
    else
      var q :- ReadQuestion(buf, pos);
      var rest :- ReadQuestions(buf, q.end, count - 1);
      Ok(Parsed([q.item] + rest.item, rest.end))
  }

  function ReadRRs(buf: bytes, pos: nat, count: nat): Result<Parsed<seq<RR>>>
    decreases count
  {
    if count == 0 then Ok(Parsed([], pos))
    else
      var rr :- ReadRR(buf, pos);
      var rest :- ReadRRs(buf, rr.end, count - 1);
      Ok(Parsed([rr.item] + rest.item, rest.end))
  }

  function ReadSections(buf: bytes, h: seq<u16>, pos: nat): Result<Parsed<Message>>
    requires |h| == 6
  {
    var qs :- ReadQuestions(buf, pos, h[2]);
    var an :- ReadRRs(buf, qs.end, h[3]);
    var ns :- ReadRRs(buf, an.end, h[4]);
    var ar :- ReadRRs(buf, ns.end, h[5]);
    Ok(Parsed(Message(h[0], h[1], qs.item, an.item, ns.item, ar.item), ar.end))
  }

  function ReadMessage(buf: bytes, pos: nat): Result<Parsed<Message>> {
    var h :- TakeU16s(buf, pos, 6);
    ReadSections(buf, h.item, h.end)
  }

  /** A whole datagram as a message: nothing may be missing and nothing may be left over. */
  function Parse(buf: bytes): Result<Message> {
    match ReadMessage(buf, 0)
    case Err(e) => Err(if e == EOF then UnexpectedEOF else e)
    case Ok(p) => if p.end < |buf| then Err(TrailingBytes) else Ok(p.item)
  }

  // ---------- Where reading stops ----------

  /** The position just after the labels from pos on and the zero octet or the pointer that ends them. */
  function InPlaceEnd(buf: bytes, pos: nat): nat
    decreases |buf| - pos
  {
    if pos >= |buf| then pos
    else if buf[pos] == 0 then pos + 1
    else if buf[pos] < 0x40 then InPlaceEnd(buf, pos + 1 + buf[pos])
    else pos + 2
  }

  /**
   * A name is read forwards: the reader ends inside the buffer, strictly past where it began, just after
   * the terminator or the first pointer.
   */
  lemma {:induction false} WalkBounds(buf: bytes, pos: nat, budget: nat)
    ensures Walk(buf, pos, budget).Ok? ==>
      var r := Walk(buf, pos, budget).value;
      && pos < r.end <= |buf| && r.end == InPlaceEnd(buf, pos)
      && r.hops <= budget && ValidLabels(r.labels)
    decreases budget, |buf| - pos
  {
    if pos < |buf| && Walk(buf, pos, budget).Ok? {
      var t := buf[pos];
      if 0 < t < 0x40 {
        WalkBounds(buf, pos + 1 + t, budget);
      } else if t >= 0xc0 {
        WalkBounds(buf, PointerTarget(t, buf[pos + 1]), budget - 1);
      }
    }
  }

  lemma ReadNameWellPositioned(buf: bytes, pos: nat)
    ensures ReadName(buf, pos).Ok? ==>
      var r := ReadName(buf, pos).value;
      pos < r.end <= |buf| && r.end == InPlaceEnd(buf, pos) && ValidName(r.item)
  {
    WalkBounds(buf, pos, POINTER_LIMIT);
    var w := Walk(buf, pos, POINTER_LIMIT);
    if w.Ok? {
      CheckNameIffValid(w.value.labels);
    }
  }

  /** Budget matters only by being large enough. */
  lemma {:induction false} WalkBudget(buf: bytes, pos: nat, budget: nat, other: nat)
    requires Walk(buf, pos, budget).Ok?
    ensures var r := Walk(buf, pos, budget).value;
      Walk(buf, pos, other) == if r.hops <= other then Ok(r) else Err(TooManyPointers)
    decreases budget, |buf| - pos
  {
    hide PointerTarget;
    var t := buf[pos];
    if 0 < t < 0x40 {
      WalkBudget(buf, pos + 1 + t, budget, other);
    } else if t >= 0xc0 && other > 0 {
      WalkBudget(buf, PointerTarget(t, buf[pos + 1]), budget - 1, other - 1);
    }
  }

  // ---------- Later input changes nothing ----------

  lemma TakeStable(buf: bytes, more: bytes, pos: nat, n: nat)
    requires buf <= more && Definite(Take(buf, pos, n))
    ensures Take(more, pos, n) == Take(buf, pos, n)
  {
    if n > 0 {
      assert more[pos..pos + n] == buf[pos..pos + n];
    }
  }

  lemma {:induction false} WalkStable(buf: bytes, more: bytes, pos: nat, budget: nat)
    requires buf <= more && Definite(Walk(buf, pos, budget))
    ensures Walk(more, pos, budget) == Walk(buf, pos, budget)
    decreases budget, |buf| - pos
  {
    hide PointerTarget;
    var t := buf[pos];
    if 0 < t < 0x40 {
      TakeStable(buf, more, pos + 1, t);
      WalkStable(buf, more, pos + 1 + t, budget);
    } else if t >= 0xc0 {
      TakeStable(buf, more, pos + 1, 1);
      if budget > 0 {
        WalkStable(buf, more, PointerTarget(t, buf[pos + 1]), budget - 1);
      }
    }
  }

  lemma ReadNameStable(buf: bytes, more: bytes, pos: nat)
    requires buf <= more && Definite(ReadName(buf, pos))
    ensures ReadName(more, pos) == ReadName(buf, pos)
  {
    WalkStable(buf, more, pos, POINTER_LIMIT);
  }

  lemma TakeU16Stable(buf: bytes, more: bytes, pos: nat)
    requires buf <= more && Definite(TakeU16(buf, pos))
    ensures TakeU16(more, pos) == TakeU16(buf, pos)
  {
    TakeStable(buf, more, pos, 2);
  }

  lemma {:induction false} TakeU16sStable(buf: bytes, more: bytes, pos: nat, count: nat)
    requires buf <= more && Definite(TakeU16s(buf, pos, count))
    ensures TakeU16s(more, pos, count) == TakeU16s(buf, pos, count)
    decreases count
  {
    if count > 0 {
      TakeU16Stable(buf, more, pos);
      TakeU16sStable(buf, more, pos + 2, count - 1);
    }
  }

  lemma ReadQuestionStable(buf: bytes, more: bytes, pos: nat)
    requires buf <= more && Definite(ReadQuestion(buf, pos))
    ensures ReadQuestion(more, pos) == ReadQuestion(buf, pos)
  {
    ReadNameStable(buf, more, pos);
    if ReadName(buf, pos).Ok? {
      TakeU16sStable(buf, more, ReadName(buf, pos).value.end, 2);
    }
  }

  lemma ReadRRTailStable(buf: bytes, more: bytes, name: Name, pos: nat)
    requires buf <= more && Definite(ReadRRTail(buf, name, pos))
    ensures ReadRRTail(more, name, pos) == ReadRRTail(buf, name, pos)
  {
    TakeU16sStable(buf, more, pos, 2);
    TakeStable(buf, more, pos + 4, 4);
    TakeU16Stable(buf, more, pos + 8);
    TakeStable(buf, more, pos + 10, TakeU16(buf, pos + 8).value.item);
  }

  lemma ReadRRStable(buf: bytes, more: bytes, pos: nat)
    requires buf <= more && Definite(ReadRR(buf, pos))
    ensures ReadRR(more, pos) == ReadRR(buf, pos)
  {
    ReadNameStable(buf, more, pos);
    if ReadName(buf, pos).Ok? {
      var name := ReadName(buf, pos).value;
      ReadRRTailStable(buf, more, name.item, name.end);
    }
  }

  lemma {:induction false} ReadQuestionsStable(buf: bytes, more: bytes, pos: nat, count: nat)
    requires buf <= more && Definite(ReadQuestions(buf, pos, count))
    ensures ReadQuestions(more, pos, count) == ReadQuestions(buf, pos, count)
    decreases count
  {
    hide ReadName;
    if count > 0 {
      ReadQuestionStable(buf, more, pos);
      if ReadQuestion(buf, pos).Ok? {
        ReadQuestionsStable(buf, more, ReadQuestion(buf, pos).value.end, count - 1);
      }
    }
  }

  lemma {:induction false} ReadRRsStable(buf: bytes, more: bytes, pos: nat, count: nat)
    requires buf <= more && Definite(ReadRRs(buf, pos, count))
    ensures ReadRRs(more, pos, count) == ReadRRs(buf, pos, count)
    decreases count
  {
    hide ReadName, ReadRRTail;
    if count > 0 {
      ReadRRStable(buf, more, pos);
      if ReadRR(buf, pos).Ok? {
        ReadRRsStable(buf, more, ReadRR(buf, pos).value.end, count - 1);
      }
    }
  }

  lemma {:induction false} ReadSectionsStable(buf: bytes, more: bytes, h: seq<u16>, pos: nat)
    requires |h| == 6 && buf <= more && Definite(ReadSections(buf, h, pos))
    ensures ReadSections(more, h, pos) == ReadSections(buf, h, pos)
  {
    hide ReadQuestion, ReadRR;
    ReadQuestionsStable(buf, more, pos, h[2]);
    var qs := ReadQuestions(buf, pos, h[2]);
    if qs.Ok? {
      ReadRRsStable(buf, more, qs.value.end, h[3]);
      var an := ReadRRs(buf, qs.value.end, h[3]);
      if an.Ok? {
        ReadRRsStable(buf, more, an.value.end, h[4]);
        var ns := ReadRRs(buf, an.value.end, h[4]);
        if ns.Ok? { ReadRRsStable(buf, more, ns.value.end, h[5]); }
      }
    }
  }

  lemma {:induction false} ReadMessageStable(buf: bytes, more: bytes, pos: nat)
    requires buf <= more && Definite(ReadMessage(buf, pos))
    ensures ReadMessage(more, pos) == ReadMessage(buf, pos)
  {
    hide ReadSections, FromU16;
    TakeU16sStable(buf, more, pos, 6);
    var h := TakeU16s(buf, pos, 6);
    if h.Ok? { ReadSectionsStable(buf, more, h.value.item, h.value.end); }
  }

  /** A datagram cut short anywhere is not a message any more. */
  lemma {:induction false} CutNeverParses(buf: bytes, cut: bytes)
    requires Parse(buf).Ok? && cut < buf
    ensures Parse(cut).Err?
  {
    hide ReadMessage;
    if Parse(cut).Ok? {
      ParsedMessageValid(buf);
      ParsedMessageValid(cut);
      ReadMessageStable(cut, buf, 0);
    }
  }

  // ---------- What a parsed message looks like ----------

  lemma {:induction false} ParsedQuestionsValid(buf: bytes, pos: nat, count: nat)
    requires pos <= |buf|
    ensures ReadQuestions(buf, pos, count).Ok? ==>
      var r := ReadQuestions(buf, pos, count).value;
      ValidQuestions(r.item) && |r.item| == count && pos <= r.end <= |buf|
    decreases count
  {
    if count > 0 && ReadQuestions(buf, pos, count).Ok? {
      ReadNameWellPositioned(buf, pos);
      ParsedQuestionsValid(buf, ReadQuestion(buf, pos).value.end, count - 1);
    }
  }

  lemma {:induction false} ParsedRRsValid(buf: bytes, pos: nat, count: nat)
    requires pos <= |buf|
    ensures ReadRRs(buf, pos, count).Ok? ==>
      var r := ReadRRs(buf, pos, count).value;
      ValidRRs(r.item) && RDataFits(r.item) && |r.item| == count && pos <= r.end <= |buf|
    decreases count
  {
    hide FromU16, FromU32, CheckName;
    if count > 0 && ReadRRs(buf, pos, count).Ok? {
      ReadNameWellPositioned(buf, pos);
      ParsedRRsValid(buf, ReadRR(buf, pos).value.end, count - 1);
    }
  }

  lemma {:induction false} ParsedSectionsValid(buf: bytes, h: seq<u16>, pos: nat)
    requires |h| == 6 && pos <= |buf|
    ensures ReadSections(buf, h, pos).Ok? ==>
      var r := ReadSections(buf, h, pos).value;
      ValidNames(r.item) && Fits(r.item) && r.end <= |buf|
  {
    if ReadSections(buf, h, pos).Ok? {
      ParsedQuestionsValid(buf, pos, h[2]);
      var qs := ReadQuestions(buf, pos, h[2]).value;
      ParsedRRsValid(buf, qs.end, h[3]);
      var an := ReadRRs(buf, qs.end, h[3]).value;
      ParsedRRsValid(buf, an.end, h[4]);
      var ns := ReadRRs(buf, an.end, h[4]).value;
      ParsedRRsValid(buf, ns.end, h[5]);
    }
  }

  /** Whatever is accepted was consumed to its last octet, and holds only valid names and sizes. */
  lemma ParsedMessageValid(buf: bytes)
    requires Parse(buf).Ok?
    ensures ValidNames(Parse(buf).value) && Fits(Parse(buf).value)
    ensures ReadMessage(buf, 0) == Ok(Parsed(Parse(buf).value, |buf|))
  {
    hide ReadSections, FromU16;
    var h := TakeU16s(buf, 0, 6).value;
    ParsedSectionsValid(buf, h.item, h.end);
  }

  /** The response code is in the low half of the fourth octet. */
  lemma {:induction false} ParsedRcode(buf: bytes)
    requires Parse(buf).Ok?
    ensures |buf| >= 12 && Parse(buf).value.Rcode() == buf[3] % 0x10
  {
    hide ReadSections, Take;
    var h := TakeU16s(buf, 0, 6);
    assert TakeU16s(buf, 0, 6).value.item[1] == TakeU16(buf, 2).value.item;
    ReadSectionsFlags(buf, h.value.item, h.value.end);
    TakenFlags(buf);
  }

  lemma ReadSectionsFlags(buf: bytes, h: seq<u16>, pos: nat)
    requires |h| == 6 && ReadSections(buf, h, pos).Ok?
    ensures ReadSections(buf, h, pos).value.item.flags == h[1]
  {
  }

  lemma TakenFlags(buf: bytes)
    requires |buf| >= 4
    ensures TakeU16(buf, 2).Ok? && TakeU16(buf, 2).value.item % 0x10 == buf[3] % 0x10
  {
  }

  // ---------- What the octets of a name mean ----------

  function Offset(hi: byte, lo: byte): nat
    requires hi >= 192
  {
    var upper: int := hi - 192;
    upper * 256 + lo
  }

  /**
   * From pos on, the labels are spelled out, with this many pointers on the way: each label behind its
   * length, a zero at the end, and an octet from 192 on as the first half of a pointer to anywhere.
   */
  predicate Spells(buf: bytes, pos: nat, labels: Name, hops: nat)
    decreases hops, |labels|
  {
    pos < |buf|
    && (|| (buf[pos] == 0 && labels == [] && hops == 0)
        || (0 < buf[pos] < 64 && labels != [] && pos + 1 + buf[pos] <= |buf|
            && buf[pos + 1..pos + 1 + buf[pos]] == labels[0] && Spells(buf, pos + 1 + buf[pos], labels[1..], hops))
        || (buf[pos] >= 192 && hops > 0 && pos + 1 < |buf|
            && Spells(buf, Offset(buf[pos], buf[pos + 1]), labels, hops - 1)))
  }

  lemma SameOffset(hi: byte, lo: byte)
    requires hi >= 192
    ensures Offset(hi, lo) == PointerTarget(hi, lo)
  {
  }

  lemma WalkLabel(buf: bytes, pos: nat, budget: nat)
    requires Walk(buf, pos, budget).Ok? && 0 < buf[pos] < 64
    ensures var end := pos + 1 + buf[pos];
      && end <= |buf| && Walk(buf, end, budget).Ok?
      && var rest := Walk(buf, end, budget).value;
         Walk(buf, pos, budget).value == rest.(labels := [buf[pos + 1..end]] + rest.labels)
  {
  }

  lemma WalkPointer(buf: bytes, pos: nat, budget: nat)
    requires Walk(buf, pos, budget).Ok? && buf[pos] >= 192
    ensures pos + 1 < |buf| && budget > 0 && Walk(buf, Offset(buf[pos], buf[pos + 1]), budget - 1).Ok?
    ensures var rest, r := Walk(buf, Offset(buf[pos], buf[pos + 1]), budget - 1).value, Walk(buf, pos, budget).value;
      r.labels == rest.labels && r.hops == rest.hops + 1
  {
    hide Offset, PointerTarget;
    SameOffset(buf[pos], buf[pos + 1]);
  }

  lemma WalkEnds(buf: bytes, pos: nat, budget: nat)
    requires Walk(buf, pos, budget).Ok?
    ensures pos < |buf| && (buf[pos] < 64 || buf[pos] >= 192)
    ensures var r := Walk(buf, pos, budget).value;
      buf[pos] == 0 ==> r.labels == [] && r.hops == 0
  {
  }

  lemma {:induction false} WalkSpells(buf: bytes, pos: nat, budget: nat)
    requires Walk(buf, pos, budget).Ok?
    ensures Spells(buf, pos, Walk(buf, pos, budget).value.labels, Walk(buf, pos, budget).value.hops)
    decreases budget, |buf| - pos
  {
    hide Offset, Walk;
    WalkEnds(buf, pos, budget);
    var t := buf[pos];
    if 0 < t < 64 {
      WalkLabel(buf, pos, budget);
      WalkSpells(buf, pos + 1 + t, budget);
      assert Walk(buf, pos, budget).value.labels[1..] == Walk(buf, pos + 1 + t, budget).value.labels;
    } else if t >= 192 {
      WalkPointer(buf, pos, budget);
      WalkSpells(buf, Offset(t, buf[pos + 1]), budget - 1);
    }
  }

  lemma SpellsLabel(buf: bytes, pos: nat, labels: Name, hops: nat)
    requires Spells(buf, pos, labels, hops) && 0 < buf[pos] < 64
    ensures var end := pos + 1 + buf[pos];
      && labels != [] && end <= |buf| && buf[pos + 1..end] == labels[0] && Spells(buf, end, labels[1..], hops)
  {
  }

  lemma SpellsPointer(buf: bytes, pos: nat, labels: Name, hops: nat)
    requires Spells(buf, pos, labels, hops) && buf[pos] >= 192
    ensures hops > 0 && pos + 1 < |buf| && Spells(buf, Offset(buf[pos], buf[pos + 1]), labels, hops - 1)
  {
  }

  lemma SpellsEnds(buf: bytes, pos: nat, labels: Name, hops: nat)
    requires Spells(buf, pos, labels, hops)
    ensures pos < |buf| && (buf[pos] < 64 || buf[pos] >= 192) && (buf[pos] == 0 ==> labels == [] && hops == 0)
  {
  }

  lemma {:induction false} SpellsWalk(buf: bytes, pos: nat, budget: nat, labels: Name, hops: nat)
    requires Spells(buf, pos, labels, hops) && hops <= budget
    ensures Walk(buf, pos, budget) == Ok(Walked(labels, InPlaceEnd(buf, pos), hops))
    decreases hops, |labels|
  {
    hide Offset, PointerTarget, Spells;
    SpellsEnds(buf, pos, labels, hops);
    var t := buf[pos];
    if 0 < t < 64 {
      SpellsLabel(buf, pos, labels, hops);
      SpellsWalk(buf, pos + 1 + t, budget, labels[1..], hops);
      assert [labels[0]] + labels[1..] == labels;
    } else if t >= 192 {
      SpellsPointer(buf, pos, labels, hops);
      SameOffset(t, buf[pos + 1]);
      assert Take(buf, pos + 1, 1).Ok?;
      SpellsWalk(buf, PointerTarget(t, buf[pos + 1]), budget - 1, labels, hops - 1);
    }
  }

  lemma ReadNameSpells(buf: bytes, pos: nat) returns (hops: nat)
    requires ReadName(buf, pos).Ok?
    ensures var r := ReadName(buf, pos).value;
      ValidName(r.item) && r.end == InPlaceEnd(buf, pos) && hops <= 10 && Spells(buf, pos, r.item, hops)
  {
    hide Spells;
    WalkSpells(buf, pos, POINTER_LIMIT);
    WalkBounds(buf, pos, POINTER_LIMIT);
    var w := Walk(buf, pos, POINTER_LIMIT).value;
    CheckNameIffValid(w.labels);
    hops := w.hops;
  }

  /** A name is read exactly if a valid name is spelled out with at most ten pointers, wherever they lead. */
  lemma {:induction false} ReadNameExactly(buf: bytes, pos: nat, name: Name, end: nat)
    ensures ReadName(buf, pos) == Ok(Parsed(name, end))
      <==> ValidName(name) && end == InPlaceEnd(buf, pos)
           && exists hops: nat | hops <= 10 :: Spells(buf, pos, name, hops)
  {
    hide Walk, Spells;
    if ReadName(buf, pos) == Ok(Parsed(name, end)) {
      var hops := ReadNameSpells(buf, pos);
      assert Spells(buf, pos, name, hops);
    }
    if hops: nat :| hops <= 10 && Spells(buf, pos, name, hops) {
      SpellsWalk(buf, pos, POINTER_LIMIT, name, hops);
      CheckNameIffValid(name);
    }
  }

  /** With more pointers than that, reading fails. */
  lemma {:induction false} TooManyHops(buf: bytes, pos: nat, labels: Name, hops: nat)
    requires Spells(buf, pos, labels, hops) && hops > 10
    ensures ReadName(buf, pos) == Err(TooManyPointers)
  {
    hide Walk, Spells;
    SpellsWalk(buf, pos, hops, labels, hops);
    WalkBudget(buf, pos, hops, POINTER_LIMIT);
  }

  // ---------- Too little and too much ----------

  /** A message with anything behind it is refused. */
  lemma {:induction false} TrailingRefused(buf: bytes, extra: bytes)
    requires Parse(buf).Ok? && extra != []
    ensures Parse(buf + extra) == Err(TrailingBytes)
  {
    ParsedMessageValid(buf);
    ReadMessageStable(buf, buf + extra, 0);
  }

  lemma {:induction false} FieldsRefused(buf: bytes, pos: nat, count: nat)
    requires pos <= |buf| < pos + 2 * count
    ensures TakeU16s(buf, pos, count).Err?
    ensures TakeU16s(buf, pos, count).error == EOF || TakeU16s(buf, pos, count).error == UnexpectedEOF
    decreases count
  {
    if pos + 2 <= |buf| { FieldsRefused(buf, pos + 2, count - 1); }
  }

  /** Less than a header is an unexpected end, and so is any other end in the middle: EOF itself is never reported. */
  lemma {:induction false} ShortRefused(buf: bytes)
    ensures |buf| < 12 ==> Parse(buf) == Err(UnexpectedEOF)
    ensures Parse(buf) != Err(EOF)
  {
    if |buf| < 12 { FieldsRefused(buf, 0, 6); }
  }
}
