/**
 * Reading back what was written. The writer's cache stays sound: following labels and pointers from
 * any cached offset yields exactly the suffix it was cached for, now and after everything appended later.
 */
module RoundTrip {
  import opened Bytes
  import opened Names
  import opened Messages
  import opened Writer
  import opened Parser

  /** Reading at off yields the name and follows exactly this many pointers. */
  predicate Decodes(w: bytes, off: nat, name: Name, hops: nat) {
    var r := Walk(w, off, hops);
    r.Ok? && r.value.labels == name && r.value.hops == hops
  }

  predicate EntryGood(b: Built, n: Name) {
    Print(n) in b.cache ==> Decodes(b.w, b.cache[Print(n)], n, Depth(b, n))
  }

  ghost predicate Sound(b: Built) {
    forall n: Name | n != [] :: EntryGood(b, n)
  }

  /** Soundness for names of at most this many labels; longer ones may be still unfinished. */
  ghost predicate SoundUpTo(b: Built, size: nat) {
    forall n: Name | n != [] && |n| <= size :: EntryGood(b, n)
  }

  /** The entry for n, if any, was already there in b. */
  predicate Kept(b: Built, r: Built, n: Name) {
    Print(n) in r.cache ==>
      Print(n) in b.cache && r.cache[Print(n)] == b.cache[Print(n)] && Depth(r, n) == Depth(b, n)
  }

  lemma EntryGoodExtended(b: Built, r: Built, n: Name)
    requires EntryGood(b, n) && Kept(b, r, n) && b.w <= r.w
    ensures EntryGood(r, n)
  {
    if Print(n) in r.cache {
      WalkStable(b.w, r.w, b.cache[Print(n)], Depth(b, n));
    }
  }

  lemma AppendSound(b: Built, data: bytes)
    requires Sound(b)
    ensures Sound(Append(b, data)) && b.w <= Append(b, data).w
  {
    var r := Append(b, data);
    forall n: Name | n != [] ensures EntryGood(r, n) {
      EntryGoodExtended(b, r, n);
    }
  }

  // ---------- One name ----------

  /** Caching a longer name does not affect how a shorter one would be written. */
  lemma {:induction false} HopsOfShorter(b: Built, name: Name, hops: nat, rest: Name)
    requires name != [] && ValidLabel(name[0]) && |rest| < |name|
    ensures Hops(PutLabel(b, name, hops), rest) == Hops(b, rest)
  {
    if rest != [] {
      if Print(rest) == Print(name) { PrintInjective(rest, name); }
      HopsOfShorter(b, name, hops, rest[1..]);
    }
  }

  lemma PointerDecodes(w: bytes, target: nat, name: Name, hops: nat)
    requires target <= MAX_POINTER_TARGET && Decodes(w, target, name, hops)
    ensures Walk(w + Pointer(target), |w|, hops + 1) == Ok(Walked(name, |w| + 2, hops + 1))
  {
    var r := w + Pointer(target);
    WalkStable(w, r, target, hops);
    assert r[|w|] == Pointer(target)[0] && r[|w| + 1] == Pointer(target)[1];
    assert PointerTarget(r[|w|], r[|w| + 1]) == target;
  }

  /** A label found in place is read in front of what follows it. */
  lemma LabelInPlace(r: bytes, pos: nat, lab: Label, rest: Name, end: nat, hops: nat)
    requires ValidLabel(lab) && pos + 1 + |lab| <= |r|
    requires r[pos] == |lab| && r[pos + 1..pos + 1 + |lab|] == lab
    requires Walk(r, pos + 1 + |lab|, hops) == Ok(Walked(rest, end, hops))
    ensures Walk(r, pos, hops) == Ok(Walked([lab] + rest, end, hops))
  {
  }

  lemma LabelAppended(w: bytes, r: bytes, lab: Label)
    requires ValidLabel(lab) && w + ([|lab|] + lab) <= r
    ensures |w| + 1 + |lab| <= |r| && r[|w|] == |lab| && r[|w| + 1..|w| + 1 + |lab|] == lab
  {
    var head := w + ([|lab|] + lab);
    assert r[|w|] == head[|w|];
    assert r[|w| + 1..|w| + 1 + |lab|] == head[|w| + 1..] == lab;
  }

  lemma {:induction false} LabelDecodes(w: bytes, r: bytes, lab: Label, rest: Name, end: nat, hops: nat)
    requires ValidLabel(lab) && w + ([|lab|] + lab) <= r
    requires Walk(r, |w| + 1 + |lab|, hops) == Ok(Walked(rest, end, hops))
    ensures Walk(r, |w|, hops) == Ok(Walked([lab] + rest, end, hops))
  {
    LabelAppended(w, r, lab);
    LabelInPlace(r, |w|, lab, rest, end, hops);
  }

  /** Name reads back from r at the end of b, and r's cache holds only sound entries besides those of b. */
  ghost predicate WellPut(b: Built, r: Built, name: Name, hops: nat) {
    && b.w <= r.w && r.worst == b.worst
    && Walk(r.w, |b.w|, hops) == Ok(Walked(name, |r.w|, hops))
    && forall n: Name | n != [] :: Kept(b, r, n) || EntryGood(r, n)
  }

  lemma LabelThenRest(b: Built, r: Built, name: Name, hops: nat)
    requires name != [] && ValidLabel(name[0])
    requires WellPut(PutLabel(b, name, hops), r, name[1..], hops)
    ensures WellPut(b, r, name, hops)
  {
    var b1 := PutLabel(b, name, hops);
    LabelDecodes(b.w, r.w, name[0], name[1..], |r.w|, hops);
    assert [name[0]] + name[1..] == name;
    assert Decodes(r.w, |b.w|, name, hops);
    forall n: Name | n != [] ensures Kept(b, r, n) || EntryGood(r, n) {
      if Kept(b1, r, n) && Print(n) == Print(name) {
        PrintInjective(n, name);
      }
    }
  }

  lemma PointerWellPut(b: Built, name: Name, hops: nat)
    requires name != [] && ValidLabels(name) && Usable(b, name)
    requires EntryGood(b, name) && hops == Hops(b, name)
    ensures WellPut(b, PutName(b, name, hops), name, hops)
  {
    var target := b.cache[Print(name)];
    PointerDecodes(b.w, target, name, Depth(b, name));
    assert hops == Depth(b, name) + 1;
    var r := Append(b, Pointer(target));
    assert WellPut(b, r, name, hops);
    assert PutName(b, name, hops) == r;
  }

  lemma {:induction false} PutLabelSoundUpTo(b: Built, name: Name, hops: nat)
    requires name != [] && ValidLabel(name[0]) && SoundUpTo(b, |name|)
    ensures SoundUpTo(PutLabel(b, name, hops), |name| - 1)
  {
    var b1 := PutLabel(b, name, hops);
    forall n: Name | n != [] && |n| <= |name| - 1 ensures EntryGood(b1, n) {
      if Print(n) == Print(name) { PrintInjective(n, name); }
      assert EntryGood(b, n);
      EntryGoodExtended(b, b1, n);
    }
  }

  lemma RootWellPut(b: Built)
    ensures WellPut(b, Append(b, [0]), [], 0)
  {
    assert (b.w + [0])[|b.w|] == 0;
  }

  lemma {:induction false} ReadyForRest(b: Built, name: Name, hops: nat)
    requires name != [] && ValidLabels(name) && !Usable(b, name)
    requires hops == Hops(b, name) && SoundUpTo(b, |name|)
    ensures ValidLabel(name[0]) && ValidLabels(name[1..])
    ensures hops == Hops(PutLabel(b, name, hops), name[1..])
    ensures SoundUpTo(PutLabel(b, name, hops), |name| - 1)
  {
    HopsOfShorter(b, name, hops, name[1..]);
    PutLabelSoundUpTo(b, name, hops);
  }

  lemma {:induction false} PutNameWellPut(b: Built, name: Name, hops: nat)
    requires ValidLabels(name) && hops == Hops(b, name) && SoundUpTo(b, |name|)
    ensures WellPut(b, PutName(b, name, hops), name, hops)
    decreases |name|
  {
    if name == [] {
      RootWellPut(b);
    } else if Usable(b, name) {
      assert EntryGood(b, name);
      PointerWellPut(b, name, hops);
    } else {
      ReadyForRest(b, name, hops);
      PutNameWellPut(PutLabel(b, name, hops), name[1..], hops);
      LabelThenRest(b, PutName(b, name, hops), name, hops);
    }
  }

  /** Writing a name keeps the cache sound, and the name reads back with the promised number of pointers. */
  lemma WriteNameDecodes(b: Built, name: Name)
    requires Sound(b) && ValidLabels(name)
    ensures var r := WriteName(b, name);
      && Sound(r) && b.w <= r.w
      && Walk(r.w, |b.w|, Hops(b, name)) == Ok(Walked(name, |r.w|, Hops(b, name)))
  {
    var hops := Hops(b, name);
    PutNameWellPut(b, name, hops);
    var r := WriteName(b, name);
    var p := PutName(b, name, hops);
    forall n: Name | n != [] ensures EntryGood(r, n) {
      assert EntryGood(p, n) == EntryGood(r, n);
      if Kept(b, p, n) {
        assert EntryGood(b, n);
        EntryGoodExtended(b, r, n);
      }
    }
  }

  /** v, unless reading it takes more pointers than the reader is willing to follow. */
  function Limited<T>(hops: nat, v: T): Result<T> {
    if hops <= POINTER_LIMIT then Ok(v) else Err(TooManyPointers)
  }

  lemma NameReadsBack(b: Built, name: Name)
    requires Sound(b) && ValidName(name)
    ensures ReadName(WriteName(b, name).w, |b.w|)
         == Limited(Hops(b, name), Parsed(name, |WriteName(b, name).w|))
  {
    WriteNameDecodes(b, name);
    var r := WriteName(b, name);
    WalkBudget(r.w, |b.w|, Hops(b, name), POINTER_LIMIT);
    CheckNameIffValid(name);
  }

  // ---------- Entries ----------

  lemma TakeAppended(w: bytes, data: bytes, rest: bytes)
    ensures data != [] ==> Take(w + (data + rest), |w|, |data|) == Ok(Parsed(data, |w| + |data|))
  {
    if data != [] {
      assert (w + (data + rest))[|w|..|w| + |data|] == data;
    }
  }

  lemma TakeU16Appended(w: bytes, n: u16, rest: bytes)
    ensures TakeU16(w + (U16(n) + rest), |w|) == Ok(Parsed(n, |w| + 2))
  {
    TakeAppended(w, U16(n), rest);
    U16RoundTrip(n);
  }

  lemma {:induction false} TakeU16sAppended(w: bytes, ns: seq<u16>, rest: bytes)
    decreases |ns|
    ensures TakeU16s(w + (U16s(ns) + rest), |w|, |ns|) == Ok(Parsed(ns, |w| + 2 * |ns|))
  {
    if ns != [] {
      var more := U16s(ns[1..]) + rest;
      assert w + (U16s(ns) + rest) == w + (U16(ns[0]) + more);
      assert w + (U16s(ns) + rest) == w + U16(ns[0]) + more;
      TakeU16Appended(w, ns[0], more);
      TakeU16sAppended(w + U16(ns[0]), ns[1..], rest);
      assert [ns[0]] + ns[1..] == ns;
    }
  }

  lemma QuestionReadsBack(b: Built, q: Question)
    requires Sound(b) && ValidName(q.name)
    ensures var r := WriteQuestion(b, q);
      && Sound(r) && b.w <= r.w && r.worst == Max(b.worst, Hops(b, q.name))
      && ReadQuestion(r.w, |b.w|) == Limited(Hops(b, q.name), Parsed(q, |r.w|))
  {
    hide Walk, FromU16;
    var n := WriteName(b, q.name);
    var r := WriteQuestion(b, q);
    WriteNameDecodes(b, q.name);
    NameReadsBack(b, q.name);
    AppendSound(n, U16s([q.typ, q.class_]));
    ReadNameStable(n.w, r.w, |b.w|);
    TakeU16sAppended(n.w, [q.typ, q.class_], []);
    assert n.w + (U16s([q.typ, q.class_]) + []) == r.w;
  }

  /** Two fields, then two more, seen from each of them. */
  lemma FourFields(w: bytes, a: bytes, t: bytes, l: bytes, d: bytes)
    ensures var r := w + (a + t) + (l + d);
      && r == w + (a + (t + (l + d))) && r == (w + a) + (t + (l + d))
      && r == (w + a + t) + (l + d) && r == (w + a + t + l) + (d + [])
  {
  }

  lemma RRTailReadsBack(w: bytes, rr: RR)
    requires |rr.data| < 0x1_0000
    ensures var r := w + (U16s([rr.typ, rr.class_]) + U32(rr.ttl)) + (U16(|rr.data|) + rr.data);
      ReadRRTail(r, rr.name, |w|) == Ok(Parsed(rr, |r|))
  {
    hide FromU16, FromU32, U16, U32;
    var fields := [rr.typ, rr.class_];
    var a, t, l, d := U16s(fields), U32(rr.ttl), U16(|rr.data|), rr.data;
    FourFields(w, a, t, l, d);
    TakeU16sAppended(w, fields, t + (l + d));
    TakeAppended(w + a, t, l + d);
    U32RoundTrip(rr.ttl);
    TakeU16Appended(w + a + t, |d|, d);
    TakeAppended(w + a + t + l, d, []);
  }

  lemma RRReadsBack(b: Built, rr: RR)
    requires Sound(b) && ValidName(rr.name) && |rr.data| < 0x1_0000
    ensures var r := WriteRR(b, rr);
      && Sound(r) && b.w <= r.w && r.worst == Max(b.worst, Hops(b, rr.name))
      && ReadRR(r.w, |b.w|) == Limited(Hops(b, rr.name), Parsed(rr, |r.w|))
  {
    var n := WriteName(b, rr.name);
    var r := WriteRR(b, rr);
    WriteNameDecodes(b, rr.name);
    NameReadsBack(b, rr.name);
    AppendSound(n, U16s([rr.typ, rr.class_]) + U32(rr.ttl));
    AppendSound(WriteRRHead(b, rr), U16(|rr.data|) + rr.data);
    ReadNameStable(n.w, r.w, |b.w|);
    RRTailReadsBack(n.w, rr);
  }

  // ---------- Sections ----------

  lemma {:induction false} QuestionsSound(b: Built, qs: seq<Question>)
    requires Sound(b) && ValidQuestions(qs)
    ensures var r := WriteQuestions(b, qs);
      Sound(r) && b.w <= r.w && b.worst <= r.worst
    decreases |qs|
  {
    if qs != [] {
      QuestionReadsBack(b, qs[0]);
      QuestionsSound(WriteQuestion(b, qs[0]), qs[1..]);
    }
  }

  lemma {:induction false} QuestionsReadBack(b: Built, qs: seq<Question>)
    requires Sound(b) && ValidQuestions(qs) && b.worst <= POINTER_LIMIT
    ensures var r := WriteQuestions(b, qs);
      ReadQuestions(r.w, |b.w|, |qs|) == Limited(r.worst, Parsed(qs, |r.w|))
    decreases |qs|
  {
    hide ReadQuestion, WriteQuestion, Sound;
    if qs != [] {
      var b1, r := WriteQuestion(b, qs[0]), WriteQuestions(b, qs);
      QuestionReadsBack(b, qs[0]);
      QuestionsSound(b1, qs[1..]);
      ReadQuestionStable(b1.w, r.w, |b.w|);
      if b1.worst <= POINTER_LIMIT {
        QuestionsReadBack(b1, qs[1..]);
        assert [qs[0]] + qs[1..] == qs;
      }
    }
  }

  lemma {:induction false} RRsSound(b: Built, rrs: seq<RR>)
    requires Sound(b) && ValidRRs(rrs) && RDataFits(rrs)
    ensures var r := WriteRRs(b, rrs);
      Sound(r) && b.w <= r.w && b.worst <= r.worst
    decreases |rrs|
  {
    if rrs != [] {
      RRReadsBack(b, rrs[0]);
      RRsSound(WriteRR(b, rrs[0]), rrs[1..]);
    }
  }

  lemma {:induction false} RRsReadBack(b: Built, rrs: seq<RR>)
    requires Sound(b) && ValidRRs(rrs) && RDataFits(rrs) && b.worst <= POINTER_LIMIT
    ensures var r := WriteRRs(b, rrs);
      ReadRRs(r.w, |b.w|, |rrs|) == Limited(r.worst, Parsed(rrs, |r.w|))
    decreases |rrs|
  {
    hide ReadRR, WriteRR, Sound;
    if rrs != [] {
      var b1, r := WriteRR(b, rrs[0]), WriteRRs(b, rrs);
      RRReadsBack(b, rrs[0]);
      RRsSound(b1, rrs[1..]);
      ReadRRStable(b1.w, r.w, |b.w|);
      if b1.worst <= POINTER_LIMIT {
        RRsReadBack(b1, rrs[1..]);
        assert [rrs[0]] + rrs[1..] == rrs;
      }
    }
  }

  // ---------- Messages ----------

  lemma SectionsReadBack(b: Built, m: Message)
    requires Sound(b) && b.worst == 0 && ValidNames(m) && Fits(m)
    ensures var q := WriteQuestions(b, m.question);
      var r := WriteRRs(WriteRRs(WriteRRs(q, m.answer), m.authority), m.additional);
      b.w <= r.w && ReadSections(r.w, Fields(m), |b.w|) == Limited(r.worst, Parsed(m, |r.w|))
  {
    hide ReadQuestion, ReadRR, WriteQuestion, WriteRR, Sound;
    var q := WriteQuestions(b, m.question);
    var an := WriteRRs(q, m.answer);
    var ns := WriteRRs(an, m.authority);
    var r := WriteRRs(ns, m.additional);
    QuestionsSound(b, m.question);
    RRsSound(q, m.answer);
    RRsSound(an, m.authority);
    RRsSound(ns, m.additional);
    QuestionsReadBack(b, m.question);
    ReadQuestionsStable(q.w, r.w, |b.w|, |m.question|);
    if q.worst <= POINTER_LIMIT {
      RRsReadBack(q, m.answer);
      ReadRRsStable(an.w, r.w, |q.w|, |m.answer|);
      if an.worst <= POINTER_LIMIT {
        RRsReadBack(an, m.authority);
        ReadRRsStable(ns.w, r.w, |an.w|, |m.authority|);
        if ns.worst <= POINTER_LIMIT {
          RRsReadBack(ns, m.additional);
        }
      }
    }
  }

  lemma HeaderSound(m: Message)
    requires CountsFit(m)
    ensures Sound(Append(EMPTY, U16s(Fields(m))))
  {
  }

  /**
   * The exact round trip: a message comes back unchanged if none of its names needs more than ten
   * pointers, and otherwise the reader gives up on it.
   */
  lemma {:induction false} MessageRoundTrip(m: Message)
    requires ValidNames(m) && Fits(m)
    ensures Parse(WireFormat(m).value) == Limited(PointersNeeded(m), m)
  {
    hide WriteQuestions, WriteRRs, ReadSections, Sound;
    var b := Append(EMPTY, U16s(Fields(m)));
    HeaderSound(m);
    SectionsReadBack(b, m);
    var out := WireFormat(m).value;
    TakeU16sAppended([], Fields(m), out[12..]);
    assert out == [] + (U16s(Fields(m)) + out[12..]);
  }

  /** Whatever parses can be written again, and reads back equal exactly under the pointer limit. */
  lemma {:induction false} ParsedMessageRewrites(buf: bytes)
    requires Parse(buf).Ok?
    ensures var m := Parse(buf).value;
      && ValidNames(m) && WireFormat(m).Ok?
      && Parse(WireFormat(m).value) == Limited(PointersNeeded(m), m)
  {
    ParsedMessageValid(buf);
    MessageRoundTrip(Parse(buf).value);
  }

  lemma SecondField(f: seq<u16>)
    requires |f| == 6
    ensures |U16s(f)| == 12 && U16s(f)[3] % 0x10 == f[1] % 0x10
  {
    assert U16s(f) == U16(f[0]) + (U16(f[1]) + U16s(f[1..][1..]));
  }

  /** The response code of a written message is in the low half of its fourth octet. */
  lemma {:induction false} WrittenRcode(m: Message)
    requires ValidNames(m) && Fits(m)
    ensures var buf := WireFormat(m).value;
      |buf| >= 12 && buf[3] % 0x10 == m.Rcode()
  {
    hide ReadSections, Sound, WriteQuestions, WriteRRs, U16s;
    var b := Append(EMPTY, U16s(Fields(m)));
    SecondField(Fields(m));
    HeaderSound(m);
    SectionsReadBack(b, m);
    var buf := WireFormat(m).value;
    assert b.w <= buf && |b.w| == 12;
    assert buf[3] == b.w[3] == U16s(Fields(m))[3];
  }
}
