/** Domain names: validity, the printed form used as a compression key, and suffix matching. */
module Names {
  import opened Bytes

  type Label = bytes
  type Name = seq<Label>

  predicate ValidLabel(l: Label) {
    1 <= |l| <= 63
  }

  predicate ValidLabels(n: Name) {
    forall i :: 0 <= i < |n| ==> ValidLabel(n[i])
  }

  /** The length octets and contents of the labels, without any terminator. */
  function LabelBytes(n: Name): bytes
    requires ValidLabels(n)
  {
    if n == [] then [] else [|n[0]|] + n[0] + LabelBytes(n[1..])
  }

  /** The number of octets the labels take up without compression or terminator. */
  function LabelsLen(n: Name): nat {
    if n == [] then 0 else 1 + |n[0]| + LabelsLen(n[1..])
  }

  /** The number of octets of the uncompressed wire form, terminator included. */
  function NameLen(n: Name): nat {
    LabelsLen(n) + 1
  }

  lemma {:induction false} LabelsLenConcat(a: Name, b: Name)
    ensures LabelsLen(a + b) == LabelsLen(a) + LabelsLen(b)
  {
    if a == [] {
      assert a + b == b;
    } else {
      assert (a + b)[1..] == a[1..] + b;
      LabelsLenConcat(a[1..], b);
    }
  }

  predicate ValidName(n: Name) {
    ValidLabels(n) && NameLen(n) <= 255
  }

  /** The first complaint about a label, in order. */
  function LabelError(n: Name): Option<Error> {
    if n == [] then None
    else if |n[0]| == 0 then Some(ZeroLengthLabel)
    else if |n[0]| > 63 then Some(LabelTooLong)
    else LabelError(n[1..])
  }

  lemma {:induction false} LabelErrorNone(n: Name)
    ensures LabelError(n).None? <==> ValidLabels(n)
  {
    if n != [] {
      LabelErrorNone(n[1..]);
      assert forall i :: 1 <= i < |n| ==> n[i] == n[1..][i - 1];
      if ValidLabels(n[1..]) && ValidLabel(n[0]) {
        forall i | 0 <= i < |n| ensures ValidLabel(n[i]) {
          if i > 0 { assert ValidLabel(n[1..][i - 1]); }
        }
      }
      if ValidLabels(n) {
        assert ValidLabel(n[0]);
        forall i | 0 <= i < |n[1..]| ensures ValidLabel(n[1..][i]) {
          assert ValidLabel(n[i + 1]);
        }
      }
    }
  }

  /** What NewName reports for a slice of labels. */
  function CheckName(labels: Name): Result<Name> {
    var e := LabelError(labels);
    if e.Some? then Err(e.value)
    else if NameLen(labels) > 255 then Err(NameTooLong)
    else Ok(labels)
  }

  lemma CheckNameIffValid(labels: Name)
    ensures CheckName(labels) == Ok(labels) <==> ValidName(labels)
    ensures CheckName(labels).Ok? <==> ValidName(labels)
    ensures Definite(CheckName(labels))
  {
    LabelErrorNone(labels);
    LabelErrorKind(labels);
  }

  lemma LabelErrorKind(n: Name)
    ensures LabelError(n) in {None, Some(ZeroLengthLabel), Some(LabelTooLong)}
  {
  }

  // ---------- Printed form ----------

  predicate Plain(b: byte) {
    b == 45 || 48 <= b <= 57 || 65 <= b <= 90 || 97 <= b <= 122
  }

  function HexDigit(d: int): byte
    requires 0 <= d < 16
  {
    if d < 10 then 48 + d else 87 + d
  }

  const DOT: byte := 46

  /** One octet of a label, written as backslash, "x" and two hexadecimal digits unless it is plain. */
  function EscapeByte(b: byte): bytes {
    if Plain(b) then [b] else [92, 120, HexDigit(b / 16), HexDigit(b % 16)]
  }

  function EscapeLabel(l: Label): bytes {
    if l == [] then [] else EscapeByte(l[0]) + EscapeLabel(l[1..])
  }

  /** The reversible printed form: escaped labels separated by dots. */
  function Print(n: Name): bytes {
    if n == [] then [DOT]
    else if |n| == 1 then EscapeLabel(n[0])
    else EscapeLabel(n[0]) + ([DOT] + Print(n[1..]))
  }

  lemma EscapeByteCancel(a: byte, b: byte, s: bytes, t: bytes)
    requires EscapeByte(a) + s == EscapeByte(b) + t
    ensures a == b && s == t
  {
    var x, y := EscapeByte(a) + s, EscapeByte(b) + t;
    assert x[0] == EscapeByte(a)[0] && y[0] == EscapeByte(b)[0];
    if Plain(a) {
      assert s == x[1..] && t == y[1..];
    } else {
      assert x[2] == HexDigit(a / 16) && y[2] == HexDigit(b / 16);
      assert x[3] == HexDigit(a % 16) && y[3] == HexDigit(b % 16);
      assert s == x[4..] && t == y[4..];
    }
  }

  /** What follows a label in a printed name: nothing, or a dot. */
  predicate AtBreak(s: bytes) {
    s == [] || s[0] == DOT
  }

  lemma EscapeByteNoBreak(b: byte, s: bytes)
    ensures !AtBreak(EscapeByte(b) + s)
  {
    assert (EscapeByte(b) + s)[0] == EscapeByte(b)[0];
  }

  lemma EscapeLabelUnfold(l: Label, s: bytes)
    requires l != []
    ensures EscapeLabel(l) + s == EscapeByte(l[0]) + (EscapeLabel(l[1..]) + s)
    ensures !AtBreak(EscapeLabel(l) + s)
  {
    var x, y := EscapeByte(l[0]), EscapeLabel(l[1..]);
    assert (x + y) + s == x + (y + s);
    EscapeByteNoBreak(l[0], y + s);
  }

  lemma {:induction false} EscapeLabelCancel(a: Label, b: Label, s: bytes, t: bytes)
    requires EscapeLabel(a) + s == EscapeLabel(b) + t
    requires AtBreak(s) && AtBreak(t)
    ensures a == b && s == t
  {
    assert a == [] ==> EscapeLabel(a) + s == s;
    assert b == [] ==> EscapeLabel(b) + t == t;
    if a != [] { EscapeLabelUnfold(a, s); }
    if b != [] { EscapeLabelUnfold(b, t); }
    if a != [] && b != [] {
      EscapeByteCancel(a[0], b[0], EscapeLabel(a[1..]) + s, EscapeLabel(b[1..]) + t);
      EscapeLabelCancel(a[1..], b[1..], s, t);
      assert a == [a[0]] + a[1..] && b == [b[0]] + b[1..];
    }
  }

  /** What follows the first label in the printed form of a non-empty name. */
  function AfterFirst(n: Name): bytes
    requires n != []
  {
    if |n| == 1 then [] else [DOT] + Print(n[1..])
  }

  lemma PrintUnfold(n: Name)
    requires n != []
    ensures Print(n) == EscapeLabel(n[0]) + AfterFirst(n)
    ensures AtBreak(AfterFirst(n))
  {
  }

  /** Distinct non-empty names print differently, whatever octets their labels hold. */
  lemma {:induction false} PrintInjective(m: Name, n: Name)
    requires m != [] && n != []
    requires Print(m) == Print(n)
    ensures m == n
  {
    PrintUnfold(m);
    PrintUnfold(n);
    EscapeLabelCancel(m[0], n[0], AfterFirst(m), AfterFirst(n));
    if |m| > 1 {
      assert Print(m[1..]) == AfterFirst(m)[1..];
      assert Print(n[1..]) == AfterFirst(n)[1..];
      PrintInjective(m[1..], n[1..]);
    }
    assert m == [m[0]] + m[1..] && n == [n[0]] + n[1..];
  }

  /** What Name.String still has to print before label i. */
  function Remaining(name: Name, i: nat): bytes
    requires i <= |name|
  {
    if i == |name| then [] else if i == 0 then Print(name) else [DOT] + Print(name[i..])
  }

  method EscapedLabel(lab: Label, prefix: bytes) returns (s: bytes)
    ensures s == prefix + EscapeLabel(lab)
  {
    s := prefix;
    for k := 0 to |lab|
      invariant s + EscapeLabel(lab[k..]) == prefix + EscapeLabel(lab)
    {
      ghost var x, y := EscapeByte(lab[k]), EscapeLabel(lab[k + 1..]);
      assert lab[k..][1..] == lab[k + 1..];
      assert (s + x) + y == s + (x + y);
      s := s + EscapeByte(lab[k]);
    }
    assert lab[|lab|..] == [];
  }

  lemma RemainingStep(name: Name, i: nat, acc: bytes)
    requires i < |name|
    ensures acc + Remaining(name, i)
         == ((if i > 0 then acc + [DOT] else acc) + EscapeLabel(name[i])) + Remaining(name, i + 1)
  {
    hide EscapeLabel;
    var rest := name[i..];
    PrintUnfold(rest);
    assert AfterFirst(rest) == Remaining(name, i + 1) by { assert rest[1..] == name[i + 1..]; }
    var e, t := EscapeLabel(name[i]), Remaining(name, i + 1);
    assert Print(rest) == e + t;
    if i > 0 {
      assert acc + ([DOT] + (e + t)) == ((acc + [DOT]) + e) + t;
    } else {
      assert rest == name;
      assert acc + (e + t) == (acc + e) + t;
    }
  }

  /** Name.String: a loop over labels, and within each a loop over its octets. */
  method NameString(name: Name) returns (s: bytes)
    ensures s == Print(name)
  {
    if |name| == 0 { return [DOT]; }
    s := [];
    for i := 0 to |name|
      invariant s + Remaining(name, i) == Print(name)
    {
      RemainingStep(name, i, s);
      if i > 0 { s := s + [DOT]; }
      s := EscapedLabel(name[i], s);
    }
  }

  // ---------- Case folding and suffixes ----------

  function LowerByte(b: byte): byte {
    if 65 <= b <= 90 then b + 32 else b
  }

  function UpperByte(b: byte): byte {
    if 97 <= b <= 122 then b - 32 else b
  }

  function Lower(s: bytes): (r: bytes)
    ensures |r| == |s|
  {
    seq(|s|, i requires 0 <= i < |s| => LowerByte(s[i]))
  }

  function Upper(s: bytes): (r: bytes)
    ensures |r| == |s|
  {
    seq(|s|, i requires 0 <= i < |s| => UpperByte(s[i]))
  }

  /** The two names agree label by label up to the case of ASCII letters. */
  predicate SameFold(a: Name, b: Name) {
    |a| == |b| && forall i :: 0 <= i < |a| ==> Lower(a[i]) == Lower(b[i])
  }

  /** The part of the name before the suffix, if the name ends in it. */
  function WithoutSuffix(name: Name, suffix: Name): Option<Name> {
    if |name| >= |suffix| && SameFold(name[|name| - |suffix|..], suffix)
    then Some(name[..|name| - |suffix|]) else None
  }

  method TrimSuffix(name: Name, suffix: Name) returns (fore: Option<Name>)
    ensures fore == WithoutSuffix(name, suffix)
  {
    if |name| < |suffix| { return None; }
    var split := |name| - |suffix|;
    var aft := name[split..];
    for i := 0 to |aft|
      invariant forall k :: 0 <= k < i ==> Lower(aft[k]) == Lower(suffix[k])
    {
      if Lower(aft[i]) != Lower(suffix[i]) { return None; }
    }
    return Some(name[..split]);
  }

  /** Changing the case of letters anywhere in a name keeps it under the same suffix. */
  lemma SuffixOfFolded(prefix: Name, suffix: Name, name: Name)
    requires SameFold(name, prefix + suffix)
    ensures WithoutSuffix(name, suffix) == Some(name[..|prefix|])
    ensures SameFold(name[..|prefix|], prefix)
  {
    forall i | 0 <= i < |prefix| ensures Lower(name[i]) == Lower(prefix[i]) {
      assert (prefix + suffix)[i] == prefix[i];
    }
    forall i | 0 <= i < |suffix| ensures Lower(name[|prefix|..][i]) == Lower(suffix[i]) {
      assert (prefix + suffix)[|prefix| + i] == suffix[i];
    }
  }

  function Join(n: Name): bytes {
    if n == [] then [] else n[0] + Join(n[1..])
  }

  lemma {:induction false} JoinLen(n: Name)
    ensures LabelsLen(n) == |Join(n)| + |n|
  {
    if n != [] { JoinLen(n[1..]); }
  }

  lemma {:induction false} SameFoldLen(a: Name, b: Name)
    requires SameFold(a, b)
    ensures LabelsLen(a) == LabelsLen(b)
  {
    if a != [] {
      assert Lower(a[0]) == Lower(b[0]);
      assert SameFold(a[1..], b[1..]);
      SameFoldLen(a[1..], b[1..]);
    }
  }

  lemma LowerEqualUpperEqual(a: bytes, b: bytes)
    requires Lower(a) == Lower(b)
    ensures |a| == |b| && Upper(a) == Upper(b)
  {
    forall i | 0 <= i < |a| ensures UpperByte(a[i]) == UpperByte(b[i]) {
      assert Lower(a)[i] == Lower(b)[i];
    }
  }

  lemma UpperConcat(a: bytes, b: bytes)
    ensures Upper(a + b) == Upper(a) + Upper(b)
  {
  }

  lemma {:induction false} UpperJoinFolded(a: Name, b: Name)
    requires SameFold(a, b)
    ensures Upper(Join(a)) == Upper(Join(b))
  {
    if a != [] {
      assert SameFold(a[1..], b[1..]);
      UpperJoinFolded(a[1..], b[1..]);
      LowerEqualUpperEqual(a[0], b[0]);
      UpperConcat(a[0], Join(a[1..]));
      UpperConcat(b[0], Join(b[1..]));
    }
  }

  // ---------- Octet by octet ----------

  /** The same octet, or the two cases of an ASCII letter. */
  predicate SameLetter(x: byte, y: byte) {
    x == y || (65 <= x <= 90 && y == x + 32) || (97 <= x <= 122 && y == x - 32)
  }

  predicate SameLetters(a: Label, b: Label) {
    |a| == |b| && forall k :: 0 <= k < |a| ==> SameLetter(a[k], b[k])
  }

  lemma LowerExactly(a: bytes, b: bytes)
    ensures Lower(a) == Lower(b) <==> SameLetters(a, b)
  {
    if |a| == |b| {
      if Lower(a) == Lower(b) {
        forall k | 0 <= k < |a| ensures SameLetter(a[k], b[k]) {
          assert Lower(a)[k] == LowerByte(a[k]) && Lower(b)[k] == LowerByte(b[k]);
        }
      }
      if SameLetters(a, b) {
        forall k | 0 <= k < |a| ensures Lower(a)[k] == Lower(b)[k] {}
        assert Lower(a) == Lower(b);
      }
    } else {
      assert |Lower(a)| != |Lower(b)|;
    }
  }

  /** A suffix is found exactly if the last labels agree with it octet by octet up to the case of letters. */
  lemma SuffixExactly(name: Name, suffix: Name, prefix: Name)
    ensures WithoutSuffix(name, suffix) == Some(prefix)
      <==> |name| == |prefix| + |suffix| && prefix == name[..|prefix|]
           && forall i :: 0 <= i < |suffix| ==> SameLetters(name[|prefix| + i], suffix[i])
  {
    if |name| == |prefix| + |suffix| {
      forall i | 0 <= i < |suffix|
        ensures Lower(name[|prefix|..][i]) == Lower(suffix[i]) <==> SameLetters(name[|prefix| + i], suffix[i])
      {
        LowerExactly(name[|prefix| + i], suffix[i]);
      }
      assert SameFold(name[|prefix|..], suffix)
        <==> forall i :: 0 <= i < |suffix| ==> SameLetters(name[|prefix| + i], suffix[i]);
    }
  }

  /** How a byte is printed: letters, digits and hyphens as they are, anything else as \\x and two digits. */
  lemma EscapeExactly(b: byte)
    ensures EscapeByte(b) ==
      if b == '-' as int || '0' as int <= b <= '9' as int
         || 'A' as int <= b <= 'Z' as int || 'a' as int <= b <= 'z' as int
      then [b]
      else ['\\' as int, 'x' as int, "0123456789abcdef"[b / 16] as int, "0123456789abcdef"[b % 16] as int]
  {
    HexExactly(b / 16);
    HexExactly(b % 16);
  }

  lemma HexExactly(d: nat)
    requires d < 16
    ensures HexDigit(d) == "0123456789abcdef"[d] as int
  {
  }
}
