/** How many pointers compression can cost, where pointers may lead, and how long the output can get. */
module HopLimit {
  import opened Bytes
  import opened Names
  import opened Messages
  import opened Writer
  import opened Parser
  import opened RoundTrip

  // ---------- Bounds on pointers ----------

  /** Cached names of at most this many labels cost fewer pointers than they have labels. */
  ghost predicate Shallow(b: Built, size: nat) {
    forall n: Name | n != [] && |n| <= size && Print(n) in b.cache :: Depth(b, n) < |n|
  }

  lemma {:induction false} HopsShallow(b: Built, name: Name)
    requires Shallow(b, |name|)
    ensures Hops(b, name) <= |name|
  {
    if name != [] && !Usable(b, name) {
      HopsShallow(b, name[1..]);
    }
  }

  lemma {:induction false} PutNameShallow(b: Built, name: Name, hops: nat)
    requires ValidLabels(name) && hops == Hops(b, name) && Shallow(b, |name|)
    ensures var r := PutName(b, name, hops);
      forall n: Name | n != [] :: Kept(b, r, n) || Depth(r, n) == hops < |n|
    decreases |name|
  {
    if name != [] && !Usable(b, name) {
      var b1, rest, r := PutLabel(b, name, hops), name[1..], PutName(b, name, hops);
      HopsShallow(b, rest);
      HopsOfShorter(b, name, hops, rest);
      forall n: Name | n != [] && |n| <= |rest| && Print(n) in b1.cache ensures Depth(b1, n) < |n| {
        if Print(n) == Print(name) { PrintInjective(n, name); }
      }
      PutNameShallow(b1, rest, hops);
      forall n: Name | n != [] ensures Kept(b, r, n) || Depth(r, n) == hops < |n| {
        if Kept(b1, r, n) && Print(n) == Print(name) { PrintInjective(n, name); }
      }
    }
  }

  /** After k names, none of more than d labels. */
  ghost predicate Bounded(b: Built, k: nat, d: nat) {
    && (forall n: Name | n != [] && Print(n) in b.cache :: Depth(b, n) < |n| && Depth(b, n) < k)
    && b.worst <= d && (b.worst == 0 || b.worst < k)
  }

  lemma {:induction false} HopsBelowCount(b: Built, k: nat, d: nat, name: Name)
    requires Bounded(b, k, d)
    ensures Hops(b, name) <= k
  {
    if name != [] && !Usable(b, name) {
      HopsBelowCount(b, k, d, name[1..]);
    }
  }

  lemma WriteNameBounded(b: Built, k: nat, d: nat, name: Name)
    requires Bounded(b, k, d) && ValidLabels(name) && |name| <= d
    ensures Bounded(WriteName(b, name), k + 1, d)
  {
    var hops := Hops(b, name);
    HopsBelowCount(b, k, d, name);
    HopsShallow(b, name);
    PutNameShallow(b, name, hops);
    PutNameWorst(b, name, hops);
    var p, r := PutName(b, name, hops), WriteName(b, name);
    forall n: Name | n != [] && Print(n) in r.cache ensures Depth(r, n) < |n| && Depth(r, n) < k + 1 {
      assert Depth(r, n) == Depth(p, n) && (Kept(b, p, n) || Depth(p, n) == hops < |n|);
    }
  }

  lemma {:induction false} PutNameWorst(b: Built, name: Name, hops: nat)
    requires ValidLabels(name)
    ensures PutName(b, name, hops).worst == b.worst
    decreases |name|
  {
    if name != [] && !Usable(b, name) {
      PutNameWorst(PutLabel(b, name, hops), name[1..], hops);
    }
  }

  predicate LabelsAtMost(m: Message, d: nat) {
    && (forall i :: 0 <= i < |m.question| ==> |m.question[i].name| <= d)
    && RRLabelsAtMost(m.answer, d) && RRLabelsAtMost(m.authority, d) && RRLabelsAtMost(m.additional, d)
  }

  predicate RRLabelsAtMost(rrs: seq<RR>, d: nat) {
    forall i :: 0 <= i < |rrs| ==> |rrs[i].name| <= d
  }

  lemma {:induction false} QuestionsBounded(b: Built, k: nat, d: nat, qs: seq<Question>)
    requires Bounded(b, k, d) && ValidQuestions(qs)
    requires forall i :: 0 <= i < |qs| ==> |qs[i].name| <= d
    ensures Bounded(WriteQuestions(b, qs), k + |qs|, d)
    decreases |qs|
  {
    if qs != [] {
      WriteNameBounded(b, k, d, qs[0].name);
      QuestionsBounded(WriteQuestion(b, qs[0]), k + 1, d, qs[1..]);
    }
  }

  lemma {:induction false} RRsBounded(b: Built, k: nat, d: nat, rrs: seq<RR>)
    requires Bounded(b, k, d) && ValidRRs(rrs) && RDataFits(rrs) && RRLabelsAtMost(rrs, d)
    ensures Bounded(WriteRRs(b, rrs), k + |rrs|, d)
    decreases |rrs|
  {
    if rrs != [] {
      WriteNameBounded(b, k, d, rrs[0].name);
      RRsBounded(WriteRR(b, rrs[0]), k + 1, d, rrs[1..]);
    }
  }

  function NameCount(m: Message): nat {
    |m.question| + |m.answer| + |m.authority| + |m.additional|
  }

  /** A message needs at most as many pointers as its longest name has labels, and fewer than it has names. */
  lemma PointersBounded(m: Message, d: nat)
    requires ValidNames(m) && Fits(m) && LabelsAtMost(m, d)
    ensures PointersNeeded(m) <= d
    ensures PointersNeeded(m) == 0 || PointersNeeded(m) < NameCount(m)
  {
    var b := Append(EMPTY, U16s(Fields(m)));
    assert Bounded(b, 0, d);
    QuestionsBounded(b, 0, d, m.question);
    var q, k1 := WriteQuestions(b, m.question), |m.question|;
    RRsBounded(q, k1, d, m.answer);
    var an, k2 := WriteRRs(q, m.answer), k1 + |m.answer|;
    RRsBounded(an, k2, d, m.authority);
    var ns, k3 := WriteRRs(an, m.authority), k2 + |m.authority|;
    RRsBounded(ns, k3, d, m.additional);
  }

  lemma {:induction false} LabelsLenBound(n: Name)
    requires ValidLabels(n)
    ensures LabelsLen(n) >= 2 * |n|
  {
    if n != [] { LabelsLenBound(n[1..]); }
  }

  lemma ValidMessageLabels(m: Message)
    requires ValidNames(m)
    ensures LabelsAtMost(m, 127)
  {
    forall n: Name | ValidName(n) ensures |n| <= 127 { LabelsLenBound(n); }
  }

  /** Eleven names, or ten labels to a name, are few enough for the round trip to succeed. */
  lemma SmallMessageRoundTrip(m: Message)
    requires ValidNames(m) && Fits(m)
    requires NameCount(m) <= POINTER_LIMIT + 1 || LabelsAtMost(m, POINTER_LIMIT)
    ensures Parse(WireFormat(m).value) == Ok(m)
  {
    MessageRoundTrip(m);
    if LabelsAtMost(m, POINTER_LIMIT) {
      PointersBounded(m, POINTER_LIMIT);
    } else {
      ValidMessageLabels(m);
      PointersBounded(m, 127);
    }
  }

  // ---------- A family of messages that meets the bound ----------

  /** The name a.a. ... .a of k labels. */
  function Nested(k: nat): (n: Name)
    ensures |n| == k && ValidLabels(n)
  {
    seq(k, _ => [97])
  }

  function NestedQuestion(k: nat): Question {
    Question(Nested(k), RRTYPE_TXT, CLASS_IN)
  }

  /** Questions from i up to k labels. */
  function NestedQuestions(i: nat, k: nat): (qs: seq<Question>)
    requires i <= k + 1
    ensures |qs| == k + 1 - i
    ensures forall j :: 0 <= j < |qs| ==> qs[j] == NestedQuestion(i + j)
    decreases k + 1 - i
  {
    if i == k + 1 then [] else [NestedQuestion(i)] + NestedQuestions(i + 1, k)
  }

  function NestedMessage(k: nat): Message {
    Message(0, 0, NestedQuestions(1, k), [], [], [])
  }

  lemma {:induction false} NestedLen(k: nat)
    ensures NameLen(Nested(k)) == 2 * k + 1
  {
    if k > 0 {
      assert Nested(k)[1..] == Nested(k - 1);
      NestedLen(k - 1);
    }
  }

  /** The names of 1 to j labels have been written, each pointing at the one before. */
  ghost predicate Chained(b: Built, j: nat) {
    && b.worst == (if j == 0 then 0 else j - 1)
    && |b.w| <= 12 + 8 * j
    && (forall i | 1 <= i <= j ::
          Print(Nested(i)) in b.cache && b.cache[Print(Nested(i))] <= 12 + 8 * j && Depth(b, Nested(i)) == i - 1)
    && (forall i | i > j :: Print(Nested(i)) !in b.cache)
  }

  lemma NestedDistinct(i: nat, j: nat)
    requires 0 < i && 0 < j && i != j
    ensures Print(Nested(i)) != Print(Nested(j))
  {
    if Print(Nested(i)) == Print(Nested(j)) { PrintInjective(Nested(i), Nested(j)); }
  }

  /** The next name of the chain points at the one before, if there is one. */
  lemma NextNamePut(b: Built, j: nat)
    requires Chained(b, j) && j < 127
    ensures var name := Nested(j + 1);
      var r := PutName(b, name, j);
      && Hops(b, name) == j && r.worst == b.worst && |r.w| <= |b.w| + 4
      && r.cache == b.cache[Print(name) := |b.w|] && r.depth == b.depth[Print(name) := j]
  {
    var name := Nested(j + 1);
    assert name[1..] == Nested(j) && name[0] == [97];
    assert !Usable(b, name);
    var b1 := PutLabel(b, name, j);
    if j > 0 {
      assert Print(Nested(j)) in b.cache;
      NestedDistinct(j, j + 1);
      assert Usable(b1, Nested(j)) && Hops(b, Nested(j)) == j;
      assert PutName(b1, Nested(j), j) == Append(b1, Pointer(b1.cache[Print(Nested(j))]));
    } else {
      assert PutName(b1, Nested(0), 0) == Append(b1, [0]);
    }
    assert PutName(b, name, j) == PutName(b1, Nested(j), j);
  }

  lemma {:induction false} ChainGrows(b: Built, j: nat)
    requires Chained(b, j) && j < 127
    ensures Chained(WriteQuestion(b, NestedQuestion(j + 1)), j + 1)
  {
    NextNamePut(b, j);
    var r := WriteQuestion(b, NestedQuestion(j + 1));
    forall i | 1 <= i <= j + 1
      ensures Print(Nested(i)) in r.cache && r.cache[Print(Nested(i))] <= 12 + 8 * (j + 1)
      ensures Depth(r, Nested(i)) == i - 1
    {
      if i <= j { NestedDistinct(i, j + 1); }
    }
    forall i | i > j + 1 ensures Print(Nested(i)) !in r.cache {
      NestedDistinct(i, j + 1);
    }
  }

  lemma {:induction false} ChainWritten(b: Built, j: nat, k: nat)
    requires Chained(b, j) && j <= k <= 127
    requires ValidQuestions(NestedQuestions(j + 1, k))
    ensures Chained(WriteQuestions(b, NestedQuestions(j + 1, k)), k)
    decreases k - j
  {
    if j < k {
      ChainGrows(b, j);
      assert NestedQuestions(j + 1, k)[1..] == NestedQuestions(j + 2, k);
      ChainWritten(WriteQuestion(b, NestedQuestion(j + 1)), j + 1, k);
    }
  }

  /**
   * Nested names make the writer chain one pointer per name: k of them need k - 1 pointers, so the bound
   * of PointersBounded is met, and from twelve names on the message no longer parses.
   */
  lemma NestedMessageFails(k: nat)
    requires 1 <= k <= 127
    ensures ValidNames(NestedMessage(k)) && Fits(NestedMessage(k))
    ensures PointersNeeded(NestedMessage(k)) == k - 1
    ensures Parse(WireFormat(NestedMessage(k)).value) == if k < 12 then Ok(NestedMessage(k)) else Err(TooManyPointers)
  {
    var m := NestedMessage(k);
    forall i | 0 <= i < |m.question| ensures ValidName(m.question[i].name) { NestedLen(i + 1); }
    var b := Append(EMPTY, U16s(Fields(m)));
    assert Chained(b, 0);
    hide WriteQuestion, NestedQuestions, Print, Parse;
    ChainWritten(b, 0, k);
    MessageRoundTrip(m);
  }

  // ---------- Where pointers lead, and output length ----------

  /** The name was written as its first i labels, and then a terminator or a pointer to an older copy of the rest. */
  predicate WrittenAs(b: Built, r: Built, name: Name, i: nat)
    requires ValidLabels(name)
  {
    && i <= |name|
    && if i == |name| then r.w == b.w + LabelBytes(name[..i]) + [0]
       else
         && Usable(b, name[i..])
         && r.w == b.w + LabelBytes(name[..i]) + Pointer(b.cache[Print(name[i..])])
         && b.cache[Print(name[i..])] < |b.w|
         && Decodes(b.w, b.cache[Print(name[i..])], name[i..], Depth(b, name[i..]))
  }

  /** A suffix that was cached before this name began is still the one found after its first label. */
  lemma TailOlder(b: Built, name: Name, hops: nat, tail: Name)
    requires name != [] && ValidLabels(name) && SoundUpTo(b, |name|)
    requires tail != [] && |tail| < |name| && Usable(PutLabel(b, name, hops), tail)
    ensures Usable(b, tail) && PutLabel(b, name, hops).cache[Print(tail)] == b.cache[Print(tail)] < |b.w|
    ensures Decodes(b.w, b.cache[Print(tail)], tail, Depth(b, tail))
  {
    if Print(tail) == Print(name) { PrintInjective(tail, name); }
    assert EntryGood(b, tail);
  }

  lemma FirstLabelBytes(w: bytes, name: Name, i: nat)
    requires name != [] && ValidLabels(name) && i < |name|
    ensures w + ([|name[0]|] + name[0]) + LabelBytes(name[1..][..i]) == w + LabelBytes(name[..i + 1])
  {
    var rest := name[1..];
    assert name[..i + 1][1..] == rest[..i];
    var first := [|name[0]|] + name[0];
    assert (w + first) + LabelBytes(rest[..i]) == w + (first + LabelBytes(rest[..i]));
  }

  lemma {:induction false} WrittenAsAfterLabel(b: Built, r: Built, name: Name, hops: nat, i: nat)
    requires name != [] && ValidLabels(name) && SoundUpTo(b, |name|)
    requires WrittenAs(PutLabel(b, name, hops), r, name[1..], i)
    ensures WrittenAs(b, r, name, i + 1)
  {
    FirstLabelBytes(b.w, name, i);
    if i < |name| - 1 {
      assert name[i + 1..] == name[1..][i..];
      TailOlder(b, name, hops, name[i + 1..]);
    }
  }

  lemma {:induction false} PutNameForm(b: Built, name: Name, hops: nat)
    requires ValidLabels(name) && SoundUpTo(b, |name|)
    ensures exists i :: WrittenAs(b, PutName(b, name, hops), name, i)
    decreases |name|
  {
    var r := PutName(b, name, hops);
    if name == [] || Usable(b, name) {
      assert name != [] ==> EntryGood(b, name);
      assert LabelBytes(name[..0]) == [] && name[0..] == name && b.w + [] == b.w;
      assert WrittenAs(b, r, name, 0);
    } else {
      PutLabelSoundUpTo(b, name, hops);
      PutNameForm(PutLabel(b, name, hops), name[1..], hops);
      var i :| WrittenAs(PutLabel(b, name, hops), r, name[1..], i);
      WrittenAsAfterLabel(b, r, name, hops, i);
    }
  }

  /** Pointers only ever lead strictly backwards, before the name they occur in, and to the suffix they stand for. */
  lemma PointersLeadBackwards(b: Built, name: Name)
    requires Sound(b) && ValidLabels(name)
    ensures exists i :: WrittenAs(b, WriteName(b, name), name, i)
  {
    PutNameForm(b, name, Hops(b, name));
    var i :| WrittenAs(b, PutName(b, name, Hops(b, name)), name, i);
    assert WrittenAs(b, WriteName(b, name), name, i);
  }

  lemma {:induction false} PutNameLen(b: Built, name: Name, hops: nat)
    requires ValidLabels(name)
    ensures |PutName(b, name, hops).w| <= |b.w| + NameLen(name)
    decreases |name|
  {
    if name != [] && !Usable(b, name) {
      PutNameLen(PutLabel(b, name, hops), name[1..], hops);
    }
  }

  function QuestionsLen(qs: seq<Question>): nat {
    if qs == [] then 0 else NameLen(qs[0].name) + 4 + QuestionsLen(qs[1..])
  }

  function RRsLen(rrs: seq<RR>): nat {
    if rrs == [] then 0 else NameLen(rrs[0].name) + 10 + |rrs[0].data| + RRsLen(rrs[1..])
  }

  /** The length of the message's wire form if no name were compressed. */
  function UncompressedLen(m: Message): nat {
    12 + QuestionsLen(m.question) + RRsLen(m.answer) + RRsLen(m.authority) + RRsLen(m.additional)
  }

  lemma {:induction false} WriteQuestionsLen(b: Built, qs: seq<Question>)
    requires WritableQuestions(qs)
    ensures |WriteQuestions(b, qs).w| <= |b.w| + QuestionsLen(qs)
    decreases |qs|
  {
    if qs != [] {
      PutNameLen(b, qs[0].name, Hops(b, qs[0].name));
      WriteQuestionsLen(WriteQuestion(b, qs[0]), qs[1..]);
    }
  }

  lemma {:induction false} WriteRRsLen(b: Built, rrs: seq<RR>)
    requires WritableRRs(rrs) && RDataFits(rrs)
    ensures |WriteRRs(b, rrs).w| <= |b.w| + RRsLen(rrs)
    decreases |rrs|
  {
    if rrs != [] {
      PutNameLen(b, rrs[0].name, Hops(b, rrs[0].name));
      WriteRRsLen(WriteRR(b, rrs[0]), rrs[1..]);
    }
  }

  /** Compression never makes a message longer. */
  lemma CompressionNeverLonger(m: Message)
    requires WritableNames(m) && Fits(m)
    ensures |WireFormat(m).value| <= UncompressedLen(m)
  {
    var b := Append(EMPTY, U16s(Fields(m)));
    var q := WriteQuestions(b, m.question);
    var an := WriteRRs(q, m.answer);
    var ns := WriteRRs(an, m.authority);
    WriteQuestionsLen(b, m.question);
    WriteRRsLen(q, m.answer);
    WriteRRsLen(an, m.authority);
    WriteRRsLen(ns, m.additional);
  }

  // ---------- Exactly what is written ----------

  predicate CachedLow(b: Built, n: Name) {
    Print(n) in b.cache && b.cache[Print(n)] <= 0x3fff
  }

  /** The first i labels are the shortest part after which the rest is cached at an offset of at most 0x3fff. */
  predicate FirstUsable(b: Built, name: Name, i: nat) {
    && i <= |name| && (forall j :: 0 <= j < i ==> !CachedLow(b, name[j..]))
    && (i < |name| ==> CachedLow(b, name[i..]))
  }

  /** The offset at which the suffix n of the name is written, if it is among those written label by label. */
  predicate IsWrittenSuffix(name: Name, i: nat, n: Name) {
    |n| <= |name| && |name| - |n| < i && n == name[|name| - |n|..]
  }

  /** A suffix just written is cached where it was written, and any other name as before. */
  predicate CachedAfter(b: Built, r: Built, name: Name, i: nat, n: Name) {
    if IsWrittenSuffix(name, i, n)
    then Print(n) in r.cache && r.cache[Print(n)] == |b.w| + LabelsLen(name[..|name| - |n|])
    else (Print(n) in r.cache <==> Print(n) in b.cache)
         && (Print(n) in b.cache ==> r.cache[Print(n)] == b.cache[Print(n)])
  }

  ghost predicate CacheAfter(b: Built, r: Built, name: Name, i: nat) {
    forall n: Name | n != [] :: CachedAfter(b, r, name, i, n)
  }

  /** A zero octet, or a pointer. */
  function EndOctets(b: Built, name: Name, i: nat): bytes
    requires FirstUsable(b, name, i)
  {
    if i == |name| then [0]
    else
      var offset := b.cache[Print(name[i..])];
      [192 + offset / 256, offset % 256]
  }

  lemma UsableIsLow(b: Built, n: Name)
    ensures Usable(b, n) <==> CachedLow(b, n)
  {
  }

  lemma LowAfterLabel(b: Built, name: Name, hops: nat, n: Name)
    requires name != [] && ValidLabel(name[0]) && n != [] && |n| < |name|
    ensures CachedLow(PutLabel(b, name, hops), n) <==> CachedLow(b, n)
    ensures CachedLow(b, n) ==> PutLabel(b, name, hops).cache[Print(n)] == b.cache[Print(n)]
  {
    if Print(n) == Print(name) { PrintInjective(n, name); }
  }

  lemma FirstUsableAfterLabel(b: Built, name: Name, hops: nat, i: nat)
    requires name != [] && ValidLabel(name[0]) && !Usable(b, name)
    requires FirstUsable(PutLabel(b, name, hops), name[1..], i)
    ensures FirstUsable(b, name, i + 1)
    ensures EndOctets(b, name, i + 1) == EndOctets(PutLabel(b, name, hops), name[1..], i)
  {
    forall j | 0 <= j < i + 1 ensures !CachedLow(b, name[j..]) {
      if j == 0 {
        assert name[0..] == name;
      } else {
        assert name[j..] == name[1..][j - 1..];
        LowAfterLabel(b, name, hops, name[j..]);
      }
    }
    if i + 1 < |name| {
      assert name[i + 1..] == name[1..][i..];
      LowAfterLabel(b, name, hops, name[i + 1..]);
    }
  }

  lemma CachedAfterLabel(b: Built, r: Built, name: Name, hops: nat, i: nat, n: Name)
    requires name != [] && ValidLabel(name[0]) && n != []
    requires CachedAfter(PutLabel(b, name, hops), r, name[1..], i, n)
    ensures CachedAfter(b, r, name, i + 1, n)
  {
    hide Print;
    var rest := name[1..];
    if n == name {
      assert name[0..] == name && name[..0] == [];
      assert !IsWrittenSuffix(rest, i, n);
    } else {
      if Print(n) == Print(name) { PrintInjective(n, name); }
      var j := |name| - |n|;
      if j > 0 { assert name[j..] == rest[j - 1..] && name[..j][1..] == rest[..j - 1]; }
    }
  }

  lemma CacheAfterLabel(b: Built, r: Built, name: Name, hops: nat, i: nat)
    requires name != [] && ValidLabel(name[0]) && CacheAfter(PutLabel(b, name, hops), r, name[1..], i)
    ensures CacheAfter(b, r, name, i + 1)
  {
    hide PutLabel, IsWrittenSuffix;
    var k := i + 1;
    forall n: Name | n != [] ensures CachedAfter(b, r, name, k, n) {
      CachedAfterLabel(b, r, name, hops, i, n);
    }
  }

  /** i labels are spelled out, then comes the end that the cache calls for, and the cache is brought up to date. */
  ghost predicate Compressed(b: Built, r: Built, name: Name, i: nat)
    requires ValidLabels(name)
  {
    && FirstUsable(b, name, i) && CacheAfter(b, r, name, i)
    && r.w == b.w + LabelBytes(name[..i]) + EndOctets(b, name, i)
  }

  lemma CacheUnchanged(b: Built, r: Built, name: Name)
    requires r.cache == b.cache
    ensures CacheAfter(b, r, name, 0)
  {
  }

  lemma PointerOctets(target: nat)
    requires target <= 0x3fff
    ensures Pointer(target) == [192 + target / 256, target % 256]
  {
  }

  lemma EndAtOnce(b: Built, name: Name, hops: nat)
    requires ValidLabels(name) && (name == [] || Usable(b, name))
    ensures FirstUsable(b, name, 0)
    ensures PutName(b, name, hops).cache == b.cache && PutName(b, name, hops).w == b.w + EndOctets(b, name, 0)
  {
    hide Pointer;
    assert name[0..] == name;
    if name != [] { PointerOctets(b.cache[Print(name)]); }
  }

  lemma CompressedAtOnce(b: Built, name: Name, hops: nat)
    requires ValidLabels(name) && (name == [] || Usable(b, name))
    ensures Compressed(b, PutName(b, name, hops), name, 0)
  {
    hide PutName, CacheAfter, EndOctets, FirstUsable;
    EndAtOnce(b, name, hops);
    CacheUnchanged(b, PutName(b, name, hops), name);
    assert name[..0] == [] && b.w + [] == b.w;
  }

  lemma SameWritten(b: Built, p: Built, r: Built, name: Name, i: nat)
    requires ValidLabels(name) && Compressed(b, p, name, i) && r.w == p.w && r.cache == p.cache
    ensures Compressed(b, r, name, i)
  {
    hide IsWrittenSuffix, FirstUsable, EndOctets, LabelBytes;
    forall n: Name | n != [] ensures CachedAfter(b, r, name, i, n) {
      assert CachedAfter(b, p, name, i, n);
    }
  }

  lemma CompressedAfterLabel(b: Built, r: Built, name: Name, hops: nat, i: nat)
    requires name != [] && ValidLabels(name) && !Usable(b, name)
    requires Compressed(PutLabel(b, name, hops), r, name[1..], i)
    ensures Compressed(b, r, name, i + 1)
  {
    hide CacheAfter, LabelBytes, FirstUsable, EndOctets;
    assert i < |name| by { IndexInName(PutLabel(b, name, hops), name[1..], i); }
    FirstUsableAfterLabel(b, name, hops, i);
    CacheAfterLabel(b, r, name, hops, i);
    FirstLabelBytes(b.w, name, i);
  }

  lemma IndexInName(b: Built, name: Name, i: nat)
    requires FirstUsable(b, name, i)
    ensures i <= |name|
  {
  }

  lemma {:induction false} PutNameExactly(b: Built, name: Name, hops: nat)
    requires ValidLabels(name)
    ensures exists i: nat :: Compressed(b, PutName(b, name, hops), name, i)
    decreases |name|
  {
    hide Compressed;
    if name == [] || Usable(b, name) {
      CompressedAtOnce(b, name, hops);
    } else {
      PutNameExactly(PutLabel(b, name, hops), name[1..], hops);
      var i: nat :| Compressed(PutLabel(b, name, hops), PutName(b, name, hops), name[1..], i);
      CompressedAfterLabel(b, PutName(b, name, hops), name, hops, i);
    }
  }

  /**
   * Names are compressed as far as the cache allows: the shortest possible part is spelled out, a pointer
   * stands for the rest, and the suffixes spelled out, and only they, are cached where they begin.
   */
  lemma {:induction false} WriteNameExactly(b: Built, name: Name)
    requires ValidLabels(name)
    ensures exists i: nat :: Compressed(b, WriteName(b, name), name, i)
  {
    hide PutName, Compressed;
    var hops := Hops(b, name);
    PutNameExactly(b, name, hops);
    var i: nat :| Compressed(b, PutName(b, name, hops), name, i);
    SameWritten(b, PutName(b, name, hops), WriteName(b, name), name, i);
  }
}
