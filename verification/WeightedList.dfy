/** Weighted lists such as 2*apple,orange: the tokenizer, the parser's state machine, and exact sampling. */
module WeightedList {
  import opened Bytes

  const COMMA: byte := 44
  const ASTERISK: byte := 42
  const BACKSLASH: byte := 92

  /** Broken stands for the panic of the tokenizer on a backslash at the end of the input. */
  datatype Token = EndOfString | Comma | Asterisk | Text(text: bytes) | Broken

  datatype Scanned = Scanned(token: Token, end: nat)

  predicate Separator(c: byte) {
    c == COMMA || c == ASTERISK
  }

  /** The text up to the next separator or the end, without its escapes. */
  function ScanText(s: bytes, i: nat): (r: Scanned)
    ensures r.token.Text? || r.token.Broken?
    ensures r.token.Text? ==> i <= r.end && (r.end > i ==> r.token.text != [])
    ensures r.token.Text? && i <= |s| ==> r.end <= |s| && (r.end == |s| || Separator(s[r.end]))
    decreases |s| - i
  {
    if i >= |s| || Separator(s[i]) then Scanned(Text([]), i)
    else
      var k := if s[i] == BACKSLASH then i + 1 else i;
      if k >= |s| then Scanned(Broken, i)
      else
        var rest := ScanText(s, k + 1);
        if rest.token.Broken? then rest else Scanned(Text([s[k]] + rest.token.text), rest.end)
  }

  function NextToken(s: bytes, i: nat): (r: Scanned)
    ensures r.token.EndOfString? <==> i >= |s|
    ensures r.token.EndOfString? ==> r.end == i
    ensures !r.token.EndOfString? && !r.token.Broken? ==> i < r.end <= |s|
    ensures r.token.Text? ==> r.token.text != [] && (r.end == |s| || Separator(s[r.end]))
  {
    if i >= |s| then Scanned(EndOfString, i)
    else if s[i] == COMMA then Scanned(Comma, i + 1)
    else if s[i] == ASTERISK then Scanned(Asterisk, i + 1)
    else ScanText(s, i)
  }

  /** Text read so far, in front of what a scan will still find. */
  function AfterText(text: bytes, rest: Scanned): Scanned {
    if rest.token.Text? then Scanned(Text(text + rest.token.text), rest.end) else rest
  }

  lemma AfterTextStep(s: bytes, i: nat, k: nat, text: bytes)
    requires i < |s| && !Separator(s[i]) && k == if s[i] == BACKSLASH then i + 1 else i
    ensures AfterText(text, ScanText(s, i)) ==
      if k < |s| then AfterText(text + [s[k]], ScanText(s, k + 1)) else Scanned(Broken, i)
  {
    if k < |s| && ScanText(s, k + 1).token.Text? {
      var rest := ScanText(s, k + 1).token.text;
      assert text + ([s[k]] + rest) == (text + [s[k]]) + rest;
    }
  }

  /** The closure nextToken, which consumes input at the position it is given and returns the new position. */
  method ScanToken(s: bytes, start: nat) returns (t: Token, i: nat)
    requires start <= |s|
    ensures t == NextToken(s, start).token && start <= i <= |s|
    ensures !t.Broken? ==> i == NextToken(s, start).end
  {
    i := start;
    if !(i < |s|) { return EndOfString, i; }
    if s[i] == COMMA { return Comma, i + 1; }
    if s[i] == ASTERISK { return Asterisk, i + 1; }
    var text: bytes := [];
    while i < |s| && s[i] != COMMA && s[i] != ASTERISK
      invariant start <= i <= |s|
      invariant AfterText(text, ScanText(s, i)) == ScanText(s, start)
      decreases |s| - i
    {
      AfterTextStep(s, i, if s[i] == BACKSLASH then i + 1 else i, text);
      if s[i] == BACKSLASH {
        i := i + 1;
        if !(i < |s|) { return Broken, i; }
      }
      text := text + [s[i]];
      i := i + 1;
    }
    assert text + [] == text;
    return Text(text), i;
  }

  // ---------- Weights ----------

  /** The value of a non-empty string of decimal digits. */
  function DecimalValue(s: bytes): Option<nat> {
    if s == [] then None
    else
      var d: int := s[|s| - 1];
      if d < 48 || 57 < d then None
      else if |s| == 1 then Some(d - 48)
      else match DecimalValue(s[..|s| - 1])
        case None => None
        case Some(v) => Some(10 * v + (d - 48))
  }

  /** strconv.ParseUint with base 10 and 32 bits. */
  function ParseWeight(s: bytes): Option<u32> {
    match DecimalValue(s)
    case None => None
    case Some(v) => if v < 0x1_0000_0000 then Some(v) else None
  }

  function Decimal(n: nat): bytes {
    if n < 10 then [48 + n] else Decimal(n / 10) + [48 + n % 10]
  }

  lemma {:induction false} DecimalRoundTrip(n: nat)
    ensures DecimalValue(Decimal(n)) == Some(n)
    ensures forall i :: 0 <= i < |Decimal(n)| ==> 48 <= Decimal(n)[i] <= 57
    ensures Decimal(n) != []
  {
    if n >= 10 {
      DecimalRoundTrip(n / 10);
      var d := Decimal(n);
      assert d[..|d| - 1] == Decimal(n / 10);
    }
  }

  // ---------- The parser ----------

  /** The result: parallel slices, or an error and where in the input it was noticed, or the tokenizer's panic. */
  datatype Outcome =
    | List(weights: seq<u32>, labels: seq<bytes>)
    | BadWeight(weight: bytes, at: nat)
    | Unexpected(token: Token)
    | Panicked

  function Prepend(w: u32, l: bytes, rest: Outcome): Outcome {
    match rest
    case List(ws, ls) => List([w] + ws, [l] + ls)
    case _ => rest
  }

  function Rejected(t: Token): Outcome {
    if t.Broken? then Panicked else Unexpected(t)
  }

  /** list ::= entry ("," entry)*, from position i. */
  function ParseList(s: bytes, i: nat): Outcome
    decreases |s| - i, 3
  {
    var t := NextToken(s, i);
    if !t.token.Text? then Rejected(t.token)
    else
      var next := NextToken(s, t.end);
      if next.token.Asterisk? then ParseLabel(s, next.end, t.token.text)
      else ParseEnd(s, t.end, [49], t.token.text)
  }

  /** The label of an entry whose weight and asterisk have been read. */
  function ParseLabel(s: bytes, i: nat, weight: bytes): Outcome
    decreases |s| - i, 2
  {
    var t := NextToken(s, i);
    if !t.token.Text? then Rejected(t.token) else ParseEnd(s, t.end, weight, t.token.text)
  }

  /** The end of an entry, and the entries after it. */
  function ParseEnd(s: bytes, i: nat, weight: bytes, lab: bytes): Outcome
    decreases |s| - i, 1
  {
    var w := ParseWeight(weight);
    if w.None? then BadWeight(weight, i)
    else
      var t := NextToken(s, i);
      if t.token.EndOfString? then List([w.value], [lab])
      else if t.token.Comma? then Prepend(w.value, lab, ParseList(s, t.end))
      else Rejected(t.token)
  }

  function Parse(s: bytes): Outcome {
    ParseList(s, 0)
  }

  datatype ParserState = BeginEntry | LabelExpected | EndEntry | Done | UnexpectedToken

  /** What is still to come in each state. */
  function FromState(s: bytes, i: nat, state: ParserState, weight: bytes, lab: bytes, t: Token): Outcome {
    match state
    case BeginEntry => ParseList(s, i)
    case LabelExpected => ParseLabel(s, i, weight)
    case EndEntry => ParseEnd(s, i, weight, lab)
    case Done => List([], [])
    case UnexpectedToken => Rejected(t)
  }

  /** Entries emitted so far, in front of the outcome for the rest. */
  function After(ws: seq<u32>, ls: seq<bytes>, rest: Outcome): Outcome {
    match rest
    case List(ws', ls') => List(ws + ws', ls + ls')
    case _ => rest
  }

  lemma AfterPrepend(ws: seq<u32>, ls: seq<bytes>, w: u32, l: bytes, rest: Outcome)
    ensures After(ws, ls, Prepend(w, l, rest)) == After(ws + [w], ls + [l], rest)
  {
    match rest
    case List(ws', ls') =>
      assert ws + ([w] + ws') == (ws + [w]) + ws' && ls + ([l] + ls') == (ls + [l]) + ls';
    case _ =>
  }

  function Rank(state: ParserState): nat {
    match state
    case BeginEntry => 4
    case LabelExpected => 3
    case EndEntry => 2
    case UnexpectedToken => 1
    case Done => 0
  }

  /** parseWeightedList: the loop over the parser's states. */
  method ParseWeightedList(s: bytes) returns (r: Outcome)
    ensures r == Parse(s)
  {
    var i: nat := 0;
    var weights: seq<u32>, labels: seq<bytes> := [], [];
    var weightString: bytes, lab: bytes := [], [];
    var t := EndOfString;
    var state := BeginEntry;
    assert After([], [], Parse(s)) == Parse(s) by {
      if Parse(s).List? { assert [] + Parse(s).weights == Parse(s).weights && [] + Parse(s).labels == Parse(s).labels; }
    }
    while state != Done
      invariant i <= |s|
      invariant After(weights, labels, FromState(s, i, state, weightString, lab, t)) == Parse(s)
      decreases |s| - i, Rank(state)
    {
      match state
      case BeginEntry =>
        t, i := ScanToken(s, i);
        if t.Text? {
          var peeked, past := ScanToken(s, i);
          if peeked == Asterisk {
            i := past;
            weightString := t.text;
            state := LabelExpected;
          } else {
            weightString := [49];
            lab := t.text;
            state := EndEntry;
          }
        } else {
          state := UnexpectedToken;
        }
      case LabelExpected =>
        t, i := ScanToken(s, i);
        if t.Text? {
          lab := t.text;
          state := EndEntry;
        } else {
          state := UnexpectedToken;
        }
      case EndEntry =>
        var w := ParseWeight(weightString);
        if w.None? { return BadWeight(weightString, i); }
        t, i := ScanToken(s, i);
        AfterPrepend(weights, labels, w.value, lab, if t == Comma then ParseList(s, i) else List([], []));
        weights := weights + [w.value];
        labels := labels + [lab];
        if t == EndOfString {
          state := Done;
        } else if t == Comma {
          state := BeginEntry;
        } else {
          state := UnexpectedToken;
        }
      case UnexpectedToken =>
        return Rejected(t);
    }
    assert weights + [] == weights && labels + [] == labels;
    return List(weights, labels);
  }

  /** Whatever is accepted is a non-empty pair of slices of the same length, with no empty label. */
  lemma {:induction false} AcceptedShape(s: bytes, i: nat)
    ensures var r := ParseList(s, i);
      r.List? ==> |r.weights| == |r.labels| > 0 && forall k :: 0 <= k < |r.labels| ==> r.labels[k] != []
    decreases |s| - i
  {
    var t := NextToken(s, i);
    if t.token.Text? {
      var next := NextToken(s, t.end);
      if next.token.Asterisk? {
        var l := NextToken(s, next.end);
        if l.token.Text? { AcceptedEnd(s, l.end, t.token.text, l.token.text); }
      } else {
        AcceptedEnd(s, t.end, [49], t.token.text);
      }
    }
  }

  lemma {:induction false} AcceptedEnd(s: bytes, i: nat, weight: bytes, lab: bytes)
    requires lab != []
    ensures var r := ParseEnd(s, i, weight, lab);
      r.List? ==> |r.weights| == |r.labels| > 0 && forall k :: 0 <= k < |r.labels| ==> r.labels[k] != []
    decreases |s| - i
  {
    var t := NextToken(s, i);
    if ParseWeight(weight).Some? && t.token.Comma? {
      AcceptedShape(s, t.end);
    }
  }

  // ---------- Printing ----------

  /** An entry as it is written: with its weight, or without it for a weight of 1. */
  datatype Entry = Entry(weight: Option<u32>, lab: bytes)

  function WeightOf(e: Entry): u32 {
    match e.weight
    case None => 1
    case Some(w) => w
  }

  predicate Special(c: byte) {
    Separator(c) || c == BACKSLASH
  }

  function EscapeByte(c: byte): (r: bytes)
    ensures |r| > 0
  {
    if Special(c) then [BACKSLASH, c] else [c]
  }

  function Escape(l: bytes): bytes {
    if l == [] then [] else EscapeByte(l[0]) + Escape(l[1..])
  }

  function PrintEntry(e: Entry): bytes {
    match e.weight
    case None => Escape(e.lab)
    case Some(w) => Decimal(w) + ([ASTERISK] + Escape(e.lab))
  }

  function PrintList(es: seq<Entry>): bytes
    requires es != []
  {
    if |es| == 1 then PrintEntry(es[0]) else PrintEntry(es[0]) + ([COMMA] + PrintList(es[1..]))
  }

  function Weights(es: seq<Entry>): seq<u32> {
    if es == [] then [] else [WeightOf(es[0])] + Weights(es[1..])
  }

  function Labels(es: seq<Entry>): seq<bytes> {
    if es == [] then [] else [es[0].lab] + Labels(es[1..])
  }

  /** The input has x at position i. */
  predicate At(s: bytes, i: nat, x: bytes): (r: bool)
    ensures r ==> i + |x| <= |s|
    decreases |x|
  {
    i <= |s| && (x == [] || (i < |s| && s[i] == x[0] && At(s, i + 1, x[1..])))
  }

  predicate AtBreak(s: bytes, i: nat) {
    i == |s| || (i < |s| && Separator(s[i]))
  }

  lemma {:induction false} AtConcat(s: bytes, i: nat, x: bytes, y: bytes)
    requires At(s, i, x + y)
    ensures At(s, i, x) && At(s, i + |x|, y)
    decreases |x|
  {
    if x == [] {
      assert x + y == y;
    } else {
      assert (x + y)[1..] == x[1..] + y;
      AtConcat(s, i + 1, x[1..], y);
    }
  }

  lemma {:induction false} AtSelf(s: bytes, i: nat)
    requires i <= |s|
    ensures At(s, i, s[i..])
    decreases |s| - i
  {
    if i < |s| {
      assert s[i..][1..] == s[i + 1..];
      AtSelf(s, i + 1);
    }
  }

  lemma AtAround(s: bytes, i: nat, x: bytes, c: byte, y: bytes)
    requires At(s, i, x + ([c] + y))
    ensures var j := i + |x|;
      && At(s, i, x) && j < |s| && s[j] == c && At(s, j + 1, y) && j + 1 + |y| == i + |x + ([c] + y)|
  {
    AtConcat(s, i, x, [c] + y);
    AtConcat(s, i + |x|, [c], y);
    assert [c][0] == c;
  }

  /** One escaped byte in front of a text that is already known. */
  lemma EscapedByteScans(s: bytes, i: nat, l: bytes, end: nat)
    requires l != [] && At(s, i, EscapeByte(l[0]))
    requires ScanText(s, i + |EscapeByte(l[0])|) == Scanned(Text(l[1..]), end)
    ensures ScanText(s, i) == Scanned(Text(l), end)
  {
    var c := l[0];
    assert s[i] == EscapeByte(c)[0];
    if Special(c) {
      assert [BACKSLASH, c][1..] == [c];
      assert At(s, i + 1, [c]);
    }
    assert [c] + l[1..] == l;
  }

  lemma EscapedSplit(s: bytes, i: nat, l: bytes, next: nat)
    requires l != [] && At(s, i, Escape(l)) && next == i + |EscapeByte(l[0])|
    ensures At(s, i, EscapeByte(l[0])) && At(s, next, Escape(l[1..])) && next + |Escape(l[1..])| == i + |Escape(l)|
  {
    AtConcat(s, i, EscapeByte(l[0]), Escape(l[1..]));
  }

  lemma {:induction false} EscapedScansTo(s: bytes, i: nat, l: bytes, end: nat)
    requires At(s, i, Escape(l)) && end == i + |Escape(l)| && AtBreak(s, end)
    ensures ScanText(s, i) == Scanned(Text(l), end)
    decreases |l|
  {
    if l != [] {
      var next := i + |EscapeByte(l[0])|;
      EscapedSplit(s, i, l, next);
      EscapedScansTo(s, next, l[1..], end);
      EscapedByteScans(s, i, l, end);
    }
  }

  lemma {:induction false} DigitsUnescaped(d: bytes)
    requires forall i :: 0 <= i < |d| ==> 48 <= d[i] <= 57
    ensures Escape(d) == d
  {
    if d != [] {
      DigitsUnescaped(d[1..]);
      assert [d[0]] + d[1..] == d;
    }
  }

  lemma DecimalUnescaped(n: nat)
    ensures Escape(Decimal(n)) == Decimal(n) && Decimal(n) != []
  {
    DecimalRoundTrip(n);
    DigitsUnescaped(Decimal(n));
  }

  lemma EscapedToken(s: bytes, i: nat, l: bytes)
    requires At(s, i, Escape(l)) && AtBreak(s, i + |Escape(l)|) && l != []
    ensures NextToken(s, i) == Scanned(Text(l), i + |Escape(l)|)
  {
    EscapedScansTo(s, i, l, i + |Escape(l)|);
    EscapedSplit(s, i, l, i + |EscapeByte(l[0])|);
    assert s[i] == EscapeByte(l[0])[0];
  }

  function WeightText(e: Entry): bytes {
    match e.weight
    case None => [49]
    case Some(w) => Decimal(w)
  }

  lemma WeightTextParses(e: Entry)
    ensures ParseWeight(WeightText(e)) == Some(WeightOf(e))
  {
    if e.weight.Some? {
      DecimalRoundTrip(e.weight.value);
    } else {
      assert DecimalValue([49]) == Some(1);
    }
  }

  lemma WeightedTokens(s: bytes, i: nat, j: nat, k: nat, end: nat, d: bytes, l: bytes)
    requires NextToken(s, i) == Scanned(Text(d), j) && NextToken(s, j) == Scanned(Asterisk, k)
    requires NextToken(s, k) == Scanned(Text(l), end)
    ensures ParseList(s, i) == ParseEnd(s, end, d, l)
  {
    assert ParseList(s, i) == ParseLabel(s, k, d);
    assert ParseLabel(s, k, d) == ParseEnd(s, end, d, l);
  }

  /** d, an asterisk, and an escaped l, at consecutive positions. */
  predicate WeightedAt(s: bytes, i: nat, j: nat, k: nat, end: nat, d: bytes, l: bytes) {
    && j == i + |Escape(d)| && At(s, i, Escape(d))
    && j < |s| && s[j] == ASTERISK && k == j + 1
    && end == k + |Escape(l)| && At(s, k, Escape(l)) && AtBreak(s, end)
  }

  lemma WeightedSplit(s: bytes, i: nat, d: bytes, l: bytes)
    requires At(s, i, d + ([ASTERISK] + Escape(l))) && Escape(d) == d
    requires AtBreak(s, i + |d + ([ASTERISK] + Escape(l))|)
    ensures WeightedAt(s, i, i + |d|, i + |d| + 1, i + |d| + 1 + |Escape(l)|, d, l)
  {
    AtAround(s, i, d, ASTERISK, Escape(l));
  }

  lemma WeightedEntryParses(s: bytes, i: nat, j: nat, k: nat, end: nat, d: bytes, l: bytes)
    requires WeightedAt(s, i, j, k, end, d, l) && d != [] && l != []
    ensures ParseList(s, i) == ParseEnd(s, end, d, l)
  {
    assert NextToken(s, i) == Scanned(Text(d), j) by { EscapedToken(s, i, d); }
    assert NextToken(s, j) == Scanned(Asterisk, k);
    assert NextToken(s, k) == Scanned(Text(l), end) by { EscapedToken(s, k, l); }
    WeightedTokens(s, i, j, k, end, d, l);
  }

  /** The end of an entry: the end of the input or a comma. */
  predicate EntryEnds(s: bytes, end: nat) {
    end == |s| || (end < |s| && s[end] == COMMA)
  }

  lemma PlainEntryParses(s: bytes, i: nat, l: bytes, end: nat)
    requires At(s, i, Escape(l)) && end == i + |Escape(l)| && EntryEnds(s, end) && l != []
    ensures ParseList(s, i) == ParseEnd(s, end, [49], l)
  {
    EscapedToken(s, i, l);
  }

  lemma WeightedPrintParses(s: bytes, i: nat, w: u32, l: bytes, end: nat)
    requires At(s, i, Decimal(w) + ([ASTERISK] + Escape(l))) && end == i + |Decimal(w) + ([ASTERISK] + Escape(l))|
    requires EntryEnds(s, end) && l != []
    ensures ParseList(s, i) == ParseEnd(s, end, Decimal(w), l)
  {
    var d := Decimal(w);
    assert Escape(d) == d && d != [] by { DecimalUnescaped(w); }
    WeightedSplit(s, i, d, l);
    WeightedEntryParses(s, i, i + |d|, i + |d| + 1, end, d, l);
  }

  /** An entry in print is read up to its end. */
  lemma EntryParses(s: bytes, i: nat, e: Entry, end: nat)
    requires At(s, i, PrintEntry(e)) && end == i + |PrintEntry(e)| && EntryEnds(s, end) && e.lab != []
    ensures ParseList(s, i) == ParseEnd(s, end, WeightText(e), e.lab)
  {
    match e.weight
    case None => PlainEntryParses(s, i, e.lab, end);
    case Some(w) => WeightedPrintParses(s, i, w, e.lab, end);
  }

  lemma {:induction false} Assembled(r: Outcome, es: seq<Entry>)
    requires es != []
    requires if |es| == 1 then r == List([WeightOf(es[0])], [es[0].lab])
             else r == Prepend(WeightOf(es[0]), es[0].lab, List(Weights(es[1..]), Labels(es[1..])))
    ensures r == List(Weights(es), Labels(es))
  {
    if |es| == 1 {
      assert es[1..] == [];
      assert [WeightOf(es[0])] + [] == [WeightOf(es[0])] && [es[0].lab] + [] == [es[0].lab];
    }
  }

  lemma LastEntry(s: bytes, i: nat, es: seq<Entry>)
    requires |es| == 1 && es[0].lab != []
    requires At(s, i, PrintEntry(es[0])) && i + |PrintEntry(es[0])| == |s|
    ensures ParseList(s, i) == List(Weights(es), Labels(es))
  {
    EntryParses(s, i, es[0], |s|);
    WeightTextParses(es[0]);
    Assembled(ParseList(s, i), es);
  }

  /** An entry, its comma, and the printed rest from next to the end of the input. */
  predicate SplitAt(s: bytes, i: nat, e: Entry, next: nat, rest: bytes) {
    && At(s, i, PrintEntry(e)) && next == i + |PrintEntry(e)| + 1 && next <= |s| && s[next - 1] == COMMA
    && At(s, next, rest) && next + |rest| == |s|
  }

  lemma PrintedSplit(s: bytes, i: nat, es: seq<Entry>)
    requires |es| > 1 && At(s, i, PrintList(es)) && i + |PrintList(es)| == |s|
    ensures SplitAt(s, i, es[0], i + |PrintEntry(es[0])| + 1, PrintList(es[1..]))
  {
    AtAround(s, i, PrintEntry(es[0]), COMMA, PrintList(es[1..]));
  }

  lemma FirstEntry(s: bytes, i: nat, es: seq<Entry>, next: nat)
    requires |es| > 1 && es[0].lab != [] && SplitAt(s, i, es[0], next, PrintList(es[1..]))
    requires ParseList(s, next) == List(Weights(es[1..]), Labels(es[1..]))
    ensures ParseList(s, i) == List(Weights(es), Labels(es))
  {
    EntryParses(s, i, es[0], next - 1);
    WeightTextParses(es[0]);
    assert NextToken(s, next - 1) == Scanned(Comma, next);
    Assembled(ParseList(s, i), es);
  }

  lemma {:induction false} PrintedFrom(s: bytes, i: nat, es: seq<Entry>)
    requires es != [] && forall k :: 0 <= k < |es| ==> es[k].lab != []
    requires At(s, i, PrintList(es)) && i + |PrintList(es)| == |s|
    ensures ParseList(s, i) == List(Weights(es), Labels(es))
    decreases |es|
  {
    hide PrintEntry, At, ParseList, Weights, Labels;
    if |es| == 1 {
      LastEntry(s, i, es);
    } else {
      var next := i + |PrintEntry(es[0])| + 1;
      PrintedSplit(s, i, es);
      PrintedFrom(s, next, es[1..]);
      FirstEntry(s, i, es, next);
    }
  }

  /** Parsing undoes printing, for every non-empty list of entries with non-empty labels. */
  lemma {:induction false} PrintedParses(es: seq<Entry>)
    requires es != [] && forall i :: 0 <= i < |es| ==> es[i].lab != []
    ensures Parse(PrintList(es)) == List(Weights(es), Labels(es))
  {
    AtSelf(PrintList(es), 0);
    assert PrintList(es)[0..] == PrintList(es);
    PrintedFrom(PrintList(es), 0, es);
  }

  // ---------- The panic on a dangling backslash ----------

  /** Read from position i, the input ends inside an escape. */
  predicate Dangling(s: bytes, i: nat)
    decreases |s| - i
  {
    if i >= |s| then false
    else if s[i] == BACKSLASH then i + 1 >= |s| || Dangling(s, i + 2)
    else Dangling(s, i + 1)
  }

  /** A text token is broken only when it runs into the end inside an escape. */
  lemma {:induction false} ScanTextDangling(s: bytes, i: nat)
    requires i <= |s|
    ensures var r := ScanText(s, i);
      Dangling(s, i) == (r.token.Broken? || Dangling(s, r.end))
    decreases |s| - i
  {
    if i < |s| && !Separator(s[i]) {
      var k := if s[i] == BACKSLASH then i + 1 else i;
      if k < |s| { ScanTextDangling(s, k + 1); }
    }
  }

  predicate OneMore(s: bytes, more: bytes) {
    |more| == |s| + 1 && forall k :: 0 <= k < |s| ==> more[k] == s[k]
  }

  /** One more byte completes a broken token, and changes nothing about one that ended before. */
  lemma {:induction false} ScanTextCompleted(s: bytes, i: nat, more: bytes)
    requires i <= |s| && OneMore(s, more)
    ensures var r, r' := ScanText(s, i), ScanText(more, i);
      && (r.token.Broken? ==> r'.token.Text? && r'.end == |s| + 1)
      && (r.token.Text? && r.end < |s| ==> r' == r)
    decreases |s| - i
  {
    if i < |s| && !Separator(s[i]) {
      var k := if s[i] == BACKSLASH then i + 1 else i;
      if k < |s| {
        ScanTextCompleted(s, k + 1, more);
      } else {
        assert ScanText(more, k + 1) == Scanned(Text([]), k + 1);
      }
    }
  }

  /** The token at i of an input that ends inside an escape: broken, and complete with one more byte, or the same. */
  predicate BrokenOrSame(r: Scanned, more: Scanned, s: bytes) {
    && !r.token.EndOfString?
    && if r.token.Broken? then more.token.Text? && more.end == |s| + 1 else more == r && Dangling(s, r.end)
  }

  lemma TokenDangling(s: bytes, i: nat, c: byte)
    requires i <= |s|
    ensures var r := NextToken(s, i);
      if Dangling(s, i) then BrokenOrSame(r, NextToken(s + [c], i), s)
      else !r.token.Broken? && !Dangling(s, r.end)
  {
    ScanTextDangling(s, i);
    ScanTextCompleted(s, i, s + [c]);
    if i < |s| {
      assert (s + [c])[i] == s[i];
    }
  }

  /** The parser got to the end of the input: it accepted it, or complains about the weight of its last entry. */
  predicate ReachesEnd(r: Outcome, n: nat) {
    r.List? || (r.BadWeight? && r.at == n)
  }

  /** An outcome that is the panic exactly if that for the completed input got to the end. */
  predicate PanicsWith(r: Outcome, completed: Outcome, n: nat) {
    !r.List? && (r.Panicked? <==> ReachesEnd(completed, n))
  }

  lemma CompletedEnds(s: bytes, weight: bytes, lab: bytes)
    ensures ReachesEnd(ParseEnd(s, |s|, weight, lab), |s|)
  {
  }

  lemma {:induction false} DanglingList(s: bytes, i: nat, c: byte)
    requires i <= |s| && Dangling(s, i)
    ensures PanicsWith(ParseList(s, i), ParseList(s + [c], i), |s| + 1)
    decreases |s| - i, 3
  {
    var more := s + [c];
    TokenDangling(s, i, c);
    var t, u := NextToken(s, i), NextToken(more, i);
    if t.token.Broken? {
      CompletedEnds(more, [49], u.token.text);
    } else if t.token.Text? {
      TokenDangling(s, t.end, c);
      var next := NextToken(s, t.end);
      if next.token.Asterisk? {
        DanglingLabel(s, next.end, t.token.text, c);
      } else {
        DanglingEnd(s, t.end, [49], t.token.text, c);
      }
    }
  }

  lemma {:induction false} DanglingLabel(s: bytes, i: nat, weight: bytes, c: byte)
    requires i <= |s| && Dangling(s, i)
    ensures PanicsWith(ParseLabel(s, i, weight), ParseLabel(s + [c], i, weight), |s| + 1)
    decreases |s| - i, 2
  {
    TokenDangling(s, i, c);
    var t, u := NextToken(s, i), NextToken(s + [c], i);
    if t.token.Broken? {
      CompletedEnds(s + [c], weight, u.token.text);
    } else if t.token.Text? {
      DanglingEnd(s, t.end, weight, t.token.text, c);
    }
  }

  lemma {:induction false} DanglingEnd(s: bytes, i: nat, weight: bytes, lab: bytes, c: byte)
    requires i <= |s| && Dangling(s, i) && (i == |s| || Separator(s[i]))
    ensures PanicsWith(ParseEnd(s, i, weight, lab), ParseEnd(s + [c], i, weight, lab), |s| + 1)
    decreases |s| - i, 1
  {
    TokenDangling(s, i, c);
    var t := NextToken(s, i);
    if ParseWeight(weight).Some? && t.token.Comma? {
      DanglingList(s, t.end, c);
    }
  }

  lemma {:induction false} NoPanicList(s: bytes, i: nat)
    requires i <= |s| && !Dangling(s, i)
    ensures ParseList(s, i) != Panicked
    decreases |s| - i, 3
  {
    TokenDangling(s, i, 0);
    var t := NextToken(s, i);
    if t.token.Text? {
      TokenDangling(s, t.end, 0);
      var next := NextToken(s, t.end);
      if next.token.Asterisk? {
        TokenDangling(s, next.end, 0);
        var l := NextToken(s, next.end);
        if l.token.Text? { NoPanicEnd(s, l.end, t.token.text, l.token.text); }
      } else {
        NoPanicEnd(s, t.end, [49], t.token.text);
      }
    }
  }

  lemma {:induction false} NoPanicEnd(s: bytes, i: nat, weight: bytes, lab: bytes)
    requires i <= |s| && !Dangling(s, i)
    ensures ParseEnd(s, i, weight, lab) != Panicked
    decreases |s| - i, 1
  {
    TokenDangling(s, i, 0);
    var t := NextToken(s, i);
    if t.token.Comma? {
      NoPanicList(s, t.end);
    }
  }

  function TrailingBackslashes(s: bytes): nat {
    if s != [] && s[|s| - 1] == BACKSLASH then 1 + TrailingBackslashes(s[..|s| - 1]) else 0
  }

  /**
   * The parser panics exactly on the inputs that end in an odd number of backslashes, and in which it has
   * not met an error before: completed by any one byte, such an input is read to its end.
   */
  lemma {:induction false} PanicsExactly(s: bytes, c: byte)
    ensures Parse(s).Panicked? <==> Dangling(s, 0) && ReachesEnd(Parse(s + [c]), |s| + 1)
    ensures Parse(s).List? ==> !Dangling(s, 0)
  {
    if Dangling(s, 0) { DanglingList(s, 0, c); } else { NoPanicList(s, 0); }
  }

  /** An input that does not end in an odd number of backslashes never makes the parser panic. */
  lemma {:induction false} EvenBackslashesNeverPanic(s: bytes)
    requires TrailingBackslashes(s) % 2 == 0
    ensures !Parse(s).Panicked?
  {
    TrailingAreBackslashes(s);
    DanglingIsOdd(s, 0);
    NoPanicList(s, 0);
  }

  /** The shortest input on which the parser panics: a single backslash. */
  lemma BackslashPanics()
    ensures Parse([BACKSLASH]).Panicked?
  {
    assert ScanText([BACKSLASH], 0).token.Broken?;
  }

  lemma {:induction false} DanglingIsOdd(s: bytes, i: nat)
    requires i <= |s| && TrailingBackslashes(s) <= |s| - i
    ensures Dangling(s, i) <==> TrailingBackslashes(s) % 2 == 1
    decreases |s| - i
  {
    TrailingAreBackslashes(s);
    var n := TrailingBackslashes(s);
    if n == |s| - i {
      AllBackslashes(s, i);
    } else if s[i] == BACKSLASH && n == |s| - i - 1 {
      assert false;
    } else if s[i] == BACKSLASH {
      DanglingIsOdd(s, i + 2);
    } else {
      DanglingIsOdd(s, i + 1);
    }
  }

  /** The trailing backslashes are the longest run of them at the end. */
  lemma {:induction false} TrailingAreBackslashes(s: bytes)
    ensures var n := TrailingBackslashes(s);
      && n <= |s| && (forall k :: |s| - n <= k < |s| ==> s[k] == BACKSLASH)
      && (n < |s| ==> s[|s| - n - 1] != BACKSLASH)
  {
    if s != [] && s[|s| - 1] == BACKSLASH {
      TrailingAreBackslashes(s[..|s| - 1]);
    }
  }

  lemma {:induction false} AllBackslashes(s: bytes, i: nat)
    requires i <= |s| && forall k :: i <= k < |s| ==> s[k] == BACKSLASH
    ensures Dangling(s, i) <==> (|s| - i) % 2 == 1
    decreases |s| - i
  {
    if i + 1 < |s| { AllBackslashes(s, i + 2); }
  }

  // ---------- Sampling ----------

  function Total(ws: seq<u32>): nat {
    if ws == [] then 0 else ws[0] + Total(ws[1..])
  }

  /** The index that a draw selects. */
  function Pick(ws: seq<u32>, r: nat): (i: nat)
    requires r < Total(ws)
    ensures i < |ws|
  {
    if r < ws[0] then 0 else 1 + Pick(ws[1..], r - ws[0])
  }

  datatype Sampled = Index(i: nat) | WeightsOverflow | TotalZero

  /** Addition of int64 values. */
  function Wrap64(x: int): int {
    (x + 0x8000_0000_0000_0000) % 0x1_0000_0000_0000_0000 - 0x8000_0000_0000_0000
  }

  lemma {:induction false} TotalSplit(ws: seq<u32>, i: nat)
    requires i < |ws|
    ensures Total(ws[i..]) == ws[i] + Total(ws[i + 1..])
    ensures Total(ws) == Total(ws[..i]) + Total(ws[i..])
    ensures Total(ws[..i + 1]) == Total(ws[..i]) + ws[i]
    decreases i
  {
    assert ws[i..][1..] == ws[i + 1..];
    if i == 0 {
      assert ws[..1] == [ws[0]] && [ws[0]][1..] == [] && ws[..0] == [] && ws[0..] == ws;
    } else {
      TotalSplit(ws[1..], i - 1);
      assert ws[1..][..i - 1] == ws[..i][1..] && ws[1..][i - 1..] == ws[i..] && ws[1..][..i] == ws[..i + 1][1..];
    }
  }

  /**
   * sampleWeighted, with the draw from [0, total) as an argument: it panics exactly if the total is zero or
   * does not fit in 63 bits, and never at its end.
   */
  method SampleWeighted(weights: seq<u32>, draw: nat) returns (sampled: Sampled)
    requires Total(weights) > 0 ==> draw < Total(weights)
    ensures sampled == if Total(weights) >= 0x8000_0000_0000_0000 then WeightsOverflow
                       else if Total(weights) == 0 then TotalZero
                       else Index(Pick(weights, draw))
  {
    var sum: int := 0;
    for k := 0 to |weights|
      invariant 0 <= sum < 0x8000_0000_0000_0000
      invariant sum + Total(weights[k..]) == Total(weights)
    {
      TotalSplit(weights, k);
      sum := Wrap64(sum + weights[k]);
      if sum < weights[k] { return WeightsOverflow; }
    }
    assert weights[|weights|..] == [];
    if sum == 0 { return TotalZero; }
    var r: int := draw;
    for k := 0 to |weights|
      invariant 0 <= r < Total(weights[k..])
      invariant k + Pick(weights[k..], r) == Pick(weights, draw)
    {
      TotalSplit(weights, k);
      assert weights[k..][1..] == weights[k + 1..];
      if r < weights[k] { return Index(k); }
      r := r - weights[k];
    }
    assert false;
  }

  /** The draws that select an index are those between the sums of the weights before and up to it. */
  lemma {:induction false} PickRange(ws: seq<u32>, r: nat, i: nat)
    requires r < Total(ws) && i < |ws|
    ensures Pick(ws, r) == i <==> Total(ws[..i]) <= r < Total(ws[..i + 1])
    decreases |ws|
  {
    if i == 0 {
      assert ws[..0] == [] && ws[..1] == [ws[0]] && [ws[0]][1..] == [];
    } else {
      assert ws[..i][1..] == ws[1..][..i - 1] && ws[..i + 1][1..] == ws[1..][..i];
      if r >= ws[0] { PickRange(ws[1..], r - ws[0], i - 1); }
    }
  }

  /** The numbers from lo up to but excluding hi. */
  function Range(lo: nat, hi: nat): (s: set<nat>)
    requires lo <= hi
    ensures forall r: nat :: r in s <==> lo <= r < hi
    ensures |s| == hi - lo
    decreases hi
  {
    if lo == hi then {} else Range(lo, hi - 1) + {hi - 1}
  }

  /** The draws that select an index. */
  function DrawsFor(ws: seq<u32>, i: nat): set<nat> {
    set r: nat | r < Total(ws) && Pick(ws, r) == i
  }

  /** Sampling is exact: of the draws below the total, as many select an index as its weight says. */
  lemma SamplingExact(ws: seq<u32>, i: nat)
    requires i < |ws|
    ensures |DrawsFor(ws, i)| == ws[i]
  {
    TotalSplit(ws, i);
    var lo, hi := Total(ws[..i]), Total(ws[..i + 1]);
    forall r: nat | r < Total(ws) ensures Pick(ws, r) == i <==> lo <= r < hi {
      PickRange(ws, r, i);
    }
    assert DrawsFor(ws, i) == Range(lo, hi);
  }
}
