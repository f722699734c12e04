/** DNS messages and their fields. */
module Messages {
  import opened Bytes
  import opened Names

  const RRTYPE_TXT: u16 := 16
  const RRTYPE_OPT: u16 := 41
  const CLASS_IN: u16 := 1

  const RCODE_NO_ERROR: u16 := 0
  const RCODE_FORMAT_ERROR: u16 := 1
  const RCODE_NAME_ERROR: u16 := 3
  const RCODE_NOT_IMPLEMENTED: u16 := 4

  datatype Question = Question(name: Name, typ: u16, class_: u16)

  datatype RR = RR(name: Name, typ: u16, class_: u16, ttl: u32, data: bytes)

  datatype Message = Message(
    id: u16,
    flags: u16,
    question: seq<Question>,
    answer: seq<RR>,
    authority: seq<RR>,
    additional: seq<RR>)
  {
    function Opcode(): u16 {
      flags / 0x800 % 0x10
    }

    function Rcode(): u16 {
      flags % 0x10
    }

    /** The QR bit: set in responses. */
    predicate IsResponse() {
      flags >= 0x8000
    }
  }

  /** Where the flags of section 4.1.1 of RFC 1035 are: QR, four bits of OPCODE, seven others, four bits of RCODE. */
  lemma FlagsLayout(m: Message, qr: bool, opcode: nat, others: nat, rcode: nat)
    requires opcode < 16 && others < 128 && rcode < 16
    requires m.flags == (if qr then 32768 else 0) + 2048 * opcode + 16 * others + rcode
    ensures m.IsResponse() == qr && m.Opcode() == opcode && m.Rcode() == rcode
  {
    assert m.flags / 0x800 == (if qr then 16 else 0) + opcode;
  }

  /** Every label of every name can be written; nothing is said about the lengths of whole names. */
  predicate WritableQuestions(qs: seq<Question>) {
    forall i :: 0 <= i < |qs| ==> ValidLabels(qs[i].name)
  }

  predicate WritableRRs(rrs: seq<RR>) {
    forall i :: 0 <= i < |rrs| ==> ValidLabels(rrs[i].name)
  }

  predicate WritableNames(m: Message) {
    && WritableQuestions(m.question)
    && WritableRRs(m.answer) && WritableRRs(m.authority) && WritableRRs(m.additional)
  }

  predicate ValidQuestions(qs: seq<Question>) {
    forall i :: 0 <= i < |qs| ==> ValidName(qs[i].name)
  }

  predicate ValidRRs(rrs: seq<RR>) {
    forall i :: 0 <= i < |rrs| ==> ValidName(rrs[i].name)
  }

  /** Every name in the message is one that NewName accepts. */
  predicate ValidNames(m: Message) {
    ValidQuestions(m.question) && ValidRRs(m.answer) && ValidRRs(m.authority) && ValidRRs(m.additional)
  }

  predicate RDataFits(rrs: seq<RR>) {
    forall i :: 0 <= i < |rrs| ==> |rrs[i].data| < 0x1_0000
  }

  predicate CountsFit(m: Message) {
    |m.question| < 0x1_0000 && |m.answer| < 0x1_0000 && |m.authority| < 0x1_0000 && |m.additional| < 0x1_0000
  }

  /** Section sizes and RDATA lengths can be written in 16 bits. */
  predicate Fits(m: Message) {
    CountsFit(m) && RDataFits(m.answer) && RDataFits(m.authority) && RDataFits(m.additional)
  }
}
