/** messageBuilder and the functions that drive it, in the form the source has them. */
module Builder {
  import opened Bytes
  import opened Names
  import opened Messages
  import Writer

  lemma NextField(f: seq<u16>, k: nat)
    requires k < |f|
    ensures U16s(f[k..]) == U16(f[k]) + U16s(f[k + 1..])
  {
    assert f[k..][1..] == f[k + 1..];
  }

  /** Writing the next field leaves the sum of what is written and what is to come as it was. */
  lemma FieldWritten(w: bytes, f: seq<u16>, k: nat)
    requires k < |f|
    ensures (w + U16(f[k])) + U16s(f[k + 1..]) == w + U16s(f[k..])
  {
    NextField(f, k);
    assert (w + U16(f[k])) + U16s(f[k + 1..]) == w + (U16(f[k]) + U16s(f[k + 1..]));
  }

  /** messageBuilder: the bytes written so far and the offsets of the suffixes among them. */
  class MessageBuilder {
    var w: bytes
    var nameCache: map<bytes, nat>
    ghost var depth: map<bytes, nat>
    ghost var worst: nat

    ghost function View(): Writer.Built
      reads this
    {
      Writer.Built(w, nameCache, depth, worst)
    }

    constructor ()
      ensures View() == Writer.EMPTY
    {
      w := [];
      nameCache := map[];
      depth := map[];
      worst := 0;
    }

    method WriteName(name: Name)
      requires ValidLabels(name)
      modifies this
      ensures View() == Writer.WriteName(old(View()), name)
    {
      ghost var start := View();
      ghost var hops := Writer.Hops(start, name);
      ghost var done := Writer.PutName(start, name, hops);
      worst := Max(worst, hops);
      for i := 0 to |name|
        invariant View().worst == Max(start.worst, hops)
        invariant Writer.PutName(View().(worst := start.worst), name[i..], hops) == done
      {
        assert name[i..][1..] == name[i + 1..];
        var key := NameString(name[i..]);
        if key in nameCache && nameCache[key] <= Writer.MAX_POINTER_TARGET {
          w := w + U16(0xc000 + nameCache[key]);
          return;
        }
        nameCache := nameCache[key := |w|];
        depth := depth[key := hops];
        w := w + ([|name[i]|] + name[i]);
      }
      w := w + [0];
    }

    method WriteU16(n: u16)
      modifies this`w
      ensures View() == Writer.Append(old(View()), U16(n))
    {
      w := w + U16(n);
    }

    method WriteQuestion(q: Question)
      requires ValidLabels(q.name)
      modifies this
      ensures View() == Writer.WriteQuestion(old(View()), q)
    {
      WriteName(q.name);
      WriteU16(q.typ);
      WriteU16(q.class_);
      TwoU16s(q.typ, q.class_);
    }

    /** On overflow the record's head has already been written. */
    method WriteRR(rr: RR) returns (err: Option<Error>)
      requires ValidLabels(rr.name)
      modifies this
      ensures err == if |rr.data| < 0x1_0000 then None else Some(IntegerOverflow)
      ensures View() == if |rr.data| < 0x1_0000 then Writer.WriteRR(old(View()), rr)
                        else Writer.WriteRRHead(old(View()), rr)
    {
      WriteName(rr.name);
      ghost var named := w;
      w := w + U16(rr.typ);
      w := w + U16(rr.class_);
      w := w + U32(rr.ttl);
      TwoU16s(rr.typ, rr.class_);
      assert w == named + (U16(rr.typ) + U16(rr.class_) + U32(rr.ttl));
      if |rr.data| >= 0x1_0000 {
        return Some(IntegerOverflow);
      }
      ghost var head := w;
      w := w + U16(|rr.data|);
      w := w + rr.data;
      assert w == head + (U16(|rr.data|) + rr.data);
      return None;
    }

    method WriteRRs(rrs: seq<RR>) returns (err: Option<Error>)
      requires WritableRRs(rrs)
      modifies this
      ensures err == if RDataFits(rrs) then None else Some(IntegerOverflow)
      ensures RDataFits(rrs) ==> View() == Writer.WriteRRs(old(View()), rrs)
    {
      ghost var start := View();
      for i := 0 to |rrs|
        invariant RDataFits(rrs[..i])
        invariant RDataFits(rrs) ==> Writer.WriteRRs(View(), rrs[i..]) == Writer.WriteRRs(start, rrs)
      {
        assert RDataFits(rrs) ==> RDataFits(rrs[i..]);
        assert rrs[i..][1..] == rrs[i + 1..];
        err := WriteRR(rrs[i]);
        if err.Some? {
          return;
        }
        assert rrs[..i + 1] == rrs[..i] + [rrs[i]];
      }
      assert rrs[..|rrs|] == rrs;
      return None;
    }

    method WriteQuestions(qs: seq<Question>)
      requires WritableQuestions(qs)
      modifies this
      ensures View() == Writer.WriteQuestions(old(View()), qs)
    {
      ghost var start := View();
      for i := 0 to |qs|
        invariant Writer.WriteQuestions(View(), qs[i..]) == Writer.WriteQuestions(start, qs)
      {
        assert qs[i..][1..] == qs[i + 1..];
        WriteQuestion(qs[i]);
      }
    }

    /** Writes the header fields, stopping at the first section that is too long to count. */
    method WriteHeader(m: Message) returns (err: Option<Error>)
      modifies this`w
      ensures err == if CountsFit(m) then None else Some(IntegerOverflow)
      ensures CountsFit(m) ==> View() == Writer.Append(old(View()), U16s(Writer.Fields(m)))
    {
      hide U16;
      ghost var start := w;
      ghost var fits := CountsFit(m);
      ghost var f := if fits then Writer.Fields(m) else [m.id, m.flags, 0, 0, 0, 0];
      assert f[0..] == f;
      FieldWritten(w, f, 0);
      WriteU16(m.id);
      FieldWritten(w, f, 1);
      WriteU16(m.flags);
      var counts := [|m.question|, |m.answer|, |m.authority|, |m.additional|];
      assert fits ==> forall k :: 0 <= k < 4 ==> f[2 + k] == counts[k];
      for i := 0 to |counts|
        invariant i > 0 ==> |m.question| < 0x1_0000
        invariant i > 1 ==> |m.answer| < 0x1_0000
        invariant i > 2 ==> |m.authority| < 0x1_0000
        invariant i > 3 ==> |m.additional| < 0x1_0000
        invariant fits ==> w + U16s(f[2 + i..]) == start + U16s(f)
      {
        if counts[i] >= 0x1_0000 { return Some(IntegerOverflow); }
        FieldWritten(w, f, 2 + i);
        WriteU16(counts[i]);
      }
      assert fits && U16s(f[6..]) == [] && w + [] == w;
      return None;
    }

    method WriteMessage(m: Message) returns (err: Option<Error>)
      requires WritableNames(m)
      modifies this
      ensures err == if Fits(m) then None else Some(IntegerOverflow)
      ensures Fits(m) ==> View() == Writer.WriteMessage(old(View()), m)
    {
      err := WriteHeader(m);
      if err.Some? { return; }
      WriteQuestions(m.question);
      err := WriteRRs(m.answer);
      if err.Some? { return; }
      err := WriteRRs(m.authority);
      if err.Some? { return; }
      err := WriteRRs(m.additional);
    }
  }

  method ToWireFormat(m: Message) returns (r: Result<bytes>)
    requires WritableNames(m)
    ensures r == Writer.WireFormat(m)
  {
    var builder := new MessageBuilder();
    var err := builder.WriteMessage(m);
    if err.Some? {
      return Err(err.value);
    }
    return Ok(builder.w);
  }
}
