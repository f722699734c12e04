/** The reader functions of package dns, in the form the source has them: a seekable reader and loops. */
module Reader {
  import opened Bytes
  import opened Names
  import opened Messages
  import opened Parser
  import Builder
  import Writer
  import WireSizes

  /** NewName measures a name by writing it to a fresh builder. */
  method NewName(labels: Name) returns (r: Result<Name>)
    ensures r == CheckName(labels)
  {
    for i := 0 to |labels|
      invariant LabelError(labels) == LabelError(labels[i..])
    {
      assert labels[i..][1..] == labels[i + 1..];
      if |labels[i]| == 0 { return Err(ZeroLengthLabel); }
      if |labels[i]| > 63 { return Err(LabelTooLong); }
    }
    assert labels[|labels|..] == [];
    LabelErrorNone(labels);
    var builder := new Builder.MessageBuilder();
    builder.WriteName(labels);
    WireSizes.FirstName(Writer.EMPTY, labels);
    if |builder.w| > 255 { return Err(NameTooLong); }
    return Ok(labels);
  }

  function InPlace(r: Result<Walked>): Result<Parsed<Name>> {
    match r
    case Ok(w) => Ok(Parsed(w.labels, w.end))
    case Err(e) => Err(e)
  }

  /** What Walk will return once the labels and the first pointer seen so far are accounted for. */
  function Resumed(rest: Result<Walked>, labels: Name, numPointers: nat, seekTo: nat): Result<Walked> {
    match rest
    case Err(e) => Err(e)
    case Ok(w) => Ok(Walked(labels + w.labels, if numPointers > 0 then seekTo else w.end, numPointers + w.hops))
  }

  lemma ResumedAtEnd(buf: bytes, pos: nat, budget: nat, labels: Name, numPointers: nat, seekTo: nat)
    requires pos < |buf| ==> buf[pos] == 0 || 0x40 <= buf[pos] < 0xc0
    ensures Resumed(Walk(buf, pos, budget), labels, numPointers, seekTo)
         == if pos >= |buf| then Err(EOF)
            else if buf[pos] == 0 then Ok(Walked(labels, if numPointers > 0 then seekTo else pos + 1, numPointers))
            else Err(ReservedLabelType)
  {
    assert labels + [] == labels;
  }

  lemma ResumedAfterLabel(buf: bytes, pos: nat, budget: nat, labels: Name, numPointers: nat, seekTo: nat)
    requires pos < |buf| && 0 < buf[pos] < 0x40
    ensures Resumed(Walk(buf, pos, budget), labels, numPointers, seekTo)
         == match Take(buf, pos + 1, buf[pos])
            case Err(e) => Err(e)
            case Ok(l) => Resumed(Walk(buf, l.end, budget), labels + [l.item], numPointers, seekTo)
  {
    var l := Take(buf, pos + 1, buf[pos]);
    if l.Ok? {
      var rest := Walk(buf, l.value.end, budget);
      var lab := l.value.item;
      assert rest.Ok? ==> labels + ([lab] + rest.value.labels) == (labels + [lab]) + rest.value.labels;
    }
  }

  lemma ResumedAfterPointer(buf: bytes, pos: nat, budget: nat, labels: Name, numPointers: nat, seekTo: nat)
    requires pos < |buf| && buf[pos] >= 0xc0
    ensures Resumed(Walk(buf, pos, budget), labels, numPointers, seekTo)
         == match Take(buf, pos + 1, 1)
            case Err(e) => Err(e)
            case Ok(lo) =>
              if budget == 0 then Err(TooManyPointers)
              else Resumed(Walk(buf, PointerTarget(buf[pos], lo.item[0]), budget - 1), labels,
                           numPointers + 1, if numPointers > 0 then seekTo else lo.end)
  {
  }

  /** A list being read: what has been read so far, in front of what is still to come. */
  function Onto<T>(acc: seq<T>, rest: Result<Parsed<seq<T>>>): Result<Parsed<seq<T>>> {
    match rest
    case Err(e) => Err(e)
    case Ok(p) => Ok(Parsed(acc + p.item, p.end))
  }

  lemma OntoNil<T>(rest: Result<Parsed<seq<T>>>)
    ensures Onto([], rest) == rest
  {
    assert rest.Ok? ==> [] + rest.value.item == rest.value.item;
  }

  lemma OntoCons<T>(acc: seq<T>, x: T, rest: Result<Parsed<seq<T>>>)
    ensures Onto(acc, Onto([x], rest)) == Onto(acc + [x], rest)
  {
    assert rest.Ok? ==> acc + ([x] + rest.value.item) == (acc + [x]) + rest.value.item;
  }

  lemma QuestionsStep(buf: bytes, pos: nat, count: nat, acc: seq<Question>)
    requires count > 0
    ensures Onto(acc, Parser.ReadQuestions(buf, pos, count))
         == match Parser.ReadQuestion(buf, pos)
            case Err(e) => Err(e)
            case Ok(q) => Onto(acc + [q.item], Parser.ReadQuestions(buf, q.end, count - 1))
  {
    var q := Parser.ReadQuestion(buf, pos);
    if q.Ok? { OntoCons(acc, q.value.item, Parser.ReadQuestions(buf, q.value.end, count - 1)); }
  }

  lemma {:induction false} RRsStep(buf: bytes, pos: nat, count: nat, acc: seq<RR>)
    requires count > 0
    ensures Onto(acc, Parser.ReadRRs(buf, pos, count))
         == match Parser.ReadRR(buf, pos)
            case Err(e) => Err(e)
            case Ok(rr) => Onto(acc + [rr.item], Parser.ReadRRs(buf, rr.end, count - 1))
  {
    var rr := Parser.ReadRR(buf, pos);
    if rr.Ok? { OntoCons(acc, rr.value.item, Parser.ReadRRs(buf, rr.value.end, count - 1)); }
  }

  lemma FieldsStep(buf: bytes, pos: nat, count: nat, acc: seq<u16>)
    requires count > 0
    ensures Onto(acc, TakeU16s(buf, pos, count))
         == match TakeU16(buf, pos)
            case Err(e) => Err(e)
            case Ok(n) => Onto(acc + [n.item], TakeU16s(buf, n.end, count - 1))
  {
    var n := TakeU16(buf, pos);
    if n.Ok? { OntoCons(acc, n.value.item, TakeU16s(buf, n.value.end, count - 1)); }
  }

  /** A reading method returned what its specification says, and on success left the reader where it says. */
  predicate Agrees<T(==)>(r: Result<T>, pos: nat, expected: Result<Parsed<T>>) {
    match expected
    case Ok(p) => r == Ok(p.item) && pos == p.end
    case Err(e) => r == Err(e)
  }

  /** bytes.Reader: a buffer and a position, which a seek may put beyond the end. */
  class ByteReader {
    const buf: bytes
    var pos: nat

    constructor (buf: bytes)
      ensures this.buf == buf && pos == 0
    {
      this.buf := buf;
      pos := 0;
    }

    /** io.ReadFull for n octets. */
    method ReadFull(n: nat) returns (r: Result<bytes>)
      modifies this`pos
      ensures Agrees(r, pos, Take(buf, old(pos), n))
    {
      if n == 0 { return Ok([]); }
      if pos >= |buf| { return Err(EOF); }
      if pos + n > |buf| {
        pos := |buf|;
        return Err(UnexpectedEOF);
      }
      pos := pos + n;
      return Ok(buf[pos - n..pos]);
    }

    method ReadU16() returns (r: Result<u16>)
      modifies this`pos
      ensures Agrees(r, pos, TakeU16(buf, old(pos)))
    {
      var b :- ReadFull(2);
      return Ok(FromU16(b));
    }

    /** The loops over pointers to 16-bit fields. */
    method ReadU16s(count: nat) returns (r: Result<seq<u16>>)
      modifies this`pos
      ensures Agrees(r, pos, TakeU16s(buf, old(pos), count))
    {
      var fields: seq<u16> := [];
      ghost var whole := TakeU16s(buf, pos, count);
      OntoNil(whole);
      for i := 0 to count
        invariant Onto(fields, TakeU16s(buf, pos, count - i)) == whole
      {
        FieldsStep(buf, pos, count - i, fields);
        var field :- ReadU16();
        fields := fields + [field];
      }
      assert fields + [] == fields;
      return Ok(fields);
    }

    method ReadU32() returns (r: Result<u32>)
      modifies this`pos
      ensures Agrees(r, pos, TakeU32(buf, old(pos)))
    {
      var b :- ReadFull(4);
      return Ok(FromU32(b));
    }

    /** One ordinary label, whose length octet has just been read, behind the labels before it. */
    method ReadLabel(length: byte, labels: Name, ghost budget: nat, ghost numPointers: nat, ghost seekTo: nat)
      returns (r: Result<Name>)
      requires 0 < pos <= |buf| && buf[pos - 1] == length && 0 < length < 0x40
      modifies this`pos
      ensures Resumed(Walk(buf, old(pos) - 1, budget), labels, numPointers, seekTo)
           == if r.Ok? then Resumed(Walk(buf, pos, budget), r.value, numPointers, seekTo) else Err(r.error)
      ensures r.Ok? ==> pos == old(pos) + length <= |buf|
    {
      ResumedAfterLabel(buf, pos - 1, budget, labels, numPointers, seekTo);
      var lab :- ReadFull(length);
      return Ok(labels + [lab]);
    }

    /** The loop of readName: reads labels, following pointers, and ends just after the name as it occurs in place. */
    method ReadLabels() returns (r: Result<Name>)
      modifies this`pos
      ensures Agrees(r, pos, InPlace(Walk(buf, old(pos), POINTER_LIMIT)))
    {
      hide Walk;
      var labels: Name := [];
      var numPointers: nat := 0;
      var seekTo: nat := 0;
      ghost var whole := Walk(buf, pos, POINTER_LIMIT);
      assert Resumed(whole, [], 0, 0) == whole by {
        assert whole.Ok? ==> [] + whole.value.labels == whole.value.labels;
      }
      while true
        invariant numPointers <= POINTER_LIMIT
        invariant Resumed(Walk(buf, pos, POINTER_LIMIT - numPointers), labels, numPointers, seekTo) == whole
        decreases POINTER_LIMIT - numPointers, |buf| - pos
      {
        ghost var at := pos;
        if at >= |buf| || buf[at] == 0 || 0x40 <= buf[at] < 0xc0 {
          ResumedAtEnd(buf, at, POINTER_LIMIT - numPointers, labels, numPointers, seekTo);
        }
        var head :- ReadFull(1);
        var labelType := head[0];
        if labelType < 0x40 {
          var length := labelType;
          if length == 0 { break; }
          labels :- ReadLabel(length, labels, POINTER_LIMIT - numPointers, numPointers, seekTo);
        } else if labelType >= 0xc0 {
          ResumedAfterPointer(buf, at, POINTER_LIMIT - numPointers, labels, numPointers, seekTo);
          var lower :- ReadFull(1);
          if numPointers == 0 { seekTo := pos; }
          numPointers := numPointers + 1;
          if numPointers > POINTER_LIMIT { return Err(TooManyPointers); }
          pos := PointerTarget(labelType, lower[0]);
        } else {
          return Err(ReservedLabelType);
        }
      }
      if numPointers > 0 { pos := seekTo; }
      return Ok(labels);
    }

    method ReadName() returns (r: Result<Name>)
      modifies this`pos
      ensures Agrees(r, pos, Parser.ReadName(buf, old(pos)))
    {
      var labels :- ReadLabels();
      r := NewName(labels);
    }

    method ReadQuestion() returns (r: Result<Question>)
      modifies this`pos
      ensures Agrees(r, pos, Parser.ReadQuestion(buf, old(pos)))
    {
      var name :- ReadName();
      var fields :- ReadU16s(2);
      return Ok(Question(name, fields[0], fields[1]));
    }

    method ReadRR() returns (r: Result<RR>)
      modifies this`pos
      ensures Agrees(r, pos, Parser.ReadRR(buf, old(pos)))
    {
      var name :- ReadName();
      var fields :- ReadU16s(2);
      var ttl :- ReadU32();
      var rdLength :- ReadU16();
      var data :- ReadFull(rdLength);
      return Ok(RR(name, fields[0], fields[1], ttl, data));
    }

    method ReadQuestions(count: nat) returns (r: Result<seq<Question>>)
      modifies this`pos
      ensures Agrees(r, pos, Parser.ReadQuestions(buf, old(pos), count))
    {
      hide Parser.ReadQuestion;
      var questions: seq<Question> := [];
      ghost var whole := Parser.ReadQuestions(buf, pos, count);
      OntoNil(whole);
      for i := 0 to count
        invariant Onto(questions, Parser.ReadQuestions(buf, pos, count - i)) == whole
      {
        QuestionsStep(buf, pos, count - i, questions);
        var question :- ReadQuestion();
        questions := questions + [question];
      }
      assert questions + [] == questions;
      return Ok(questions);
    }

    method ReadRRs(count: nat) returns (r: Result<seq<RR>>)
      modifies this`pos
      ensures Agrees(r, pos, Parser.ReadRRs(buf, old(pos), count))
    {
      hide Parser.ReadRR;
      var rrs: seq<RR> := [];
      ghost var whole := Parser.ReadRRs(buf, pos, count);
      OntoNil(whole);
      for i := 0 to count
        invariant Onto(rrs, Parser.ReadRRs(buf, pos, count - i)) == whole
      {
        RRsStep(buf, pos, count - i, rrs);
        var rr :- ReadRR();
        rrs := rrs + [rr];
      }
      assert rrs + [] == rrs;
      return Ok(rrs);
    }

    method ReadMessage() returns (r: Result<Message>)
      modifies this`pos
      ensures Agrees(r, pos, Parser.ReadMessage(buf, old(pos)))
    {
      var h :- ReadU16s(6);
      var question :- ReadQuestions(h[2]);
      var answer :- ReadRRs(h[3]);
      var authority :- ReadRRs(h[4]);
      var additional :- ReadRRs(h[5]);
      return Ok(Message(h[0], h[1], question, answer, authority, additional));
    }
  }

  method MessageFromWireFormat(buf: bytes) returns (r: Result<Message>)
    ensures r == Parse(buf)
  {
    var reader := new ByteReader(buf);
    r := reader.ReadMessage();
    if r == Err(EOF) {
      return Err(UnexpectedEOF);
    } else if r.Ok? && reader.pos < |buf| {
      return Err(TrailingBytes);
    }
  }
}
