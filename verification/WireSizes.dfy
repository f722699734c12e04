/** Exact sizes: a name met for the first time is written out in full, and again as a two-octet pointer. */
module WireSizes {
  import opened Names
  import opened Writer

  /** No suffix of the name could be pointed at. */
  predicate Unseen(b: Built, name: Name) {
    forall i :: 0 <= i < |name| ==> !Usable(b, name[i..])
  }

  lemma {:induction false} UnseenRest(b: Built, name: Name, hops: nat)
    requires name != [] && ValidLabel(name[0]) && Unseen(b, name)
    ensures Unseen(PutLabel(b, name, hops), name[1..])
  {
    var b1, rest := PutLabel(b, name, hops), name[1..];
    forall i | 0 <= i < |rest| ensures !Usable(b1, rest[i..]) {
      assert rest[i..] == name[i + 1..] && !Usable(b, name[i + 1..]);
      if Print(rest[i..]) == Print(name) { PrintInjective(rest[i..], name); }
    }
  }

  lemma {:induction false} UnseenWrittenInFull(b: Built, name: Name, hops: nat)
    requires ValidLabels(name) && Unseen(b, name)
    ensures var r := PutName(b, name, hops);
      && |r.w| == |b.w| + NameLen(name)
      && (forall n: Name | n != [] && |n| > |name| && Print(n) in b.cache ::
            Print(n) in r.cache && r.cache[Print(n)] == b.cache[Print(n)])
    decreases |name|
  {
    if name != [] {
      assert name[0..] == name && !Usable(b, name);
      UnseenRest(b, name, hops);
      var b1, r := PutLabel(b, name, hops), PutName(b, name, hops);
      UnseenWrittenInFull(b1, name[1..], hops);
      forall n: Name | n != [] && |n| > |name| && Print(n) in b.cache
        ensures Print(n) in r.cache && r.cache[Print(n)] == b.cache[Print(n)]
      {
        if Print(n) == Print(name) { PrintInjective(n, name); }
      }
    }
  }

  /** A name written first takes its uncompressed length; from a low offset, it can then be pointed at. */
  lemma FirstName(b: Built, name: Name)
    requires ValidLabels(name) && b.cache == map[]
    ensures |WriteName(b, name).w| == |b.w| + NameLen(name)
    ensures name != [] && |b.w| <= MAX_POINTER_TARGET ==> Usable(WriteName(b, name), name)
  {
    var hops := Hops(b, name);
    UnseenWrittenInFull(b, name, hops);
    if name != [] {
      var b1 := PutLabel(b, name, hops);
      assert name[0..] == name && !Usable(b, name);
      UnseenRest(b, name, hops);
      UnseenWrittenInFull(b1, name[1..], hops);
    }
  }

  /** The size of the name when it repeats one that can be pointed at. */
  function RepeatedLen(name: Name): nat {
    if name == [] then 1 else 2
  }

  lemma RepeatedName(b: Built, name: Name)
    requires ValidLabels(name) && (name != [] ==> Usable(b, name))
    ensures |WriteName(b, name).w| == |b.w| + RepeatedLen(name)
  {
  }
}
