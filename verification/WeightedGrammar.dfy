/** The grammar of weighted lists, and that the parser accepts exactly the lists in it. */
module WeightedGrammar {
  import opened Bytes
  import opened WeightedList

  /**
   * The bytes from i to end stand for the text l: a byte other than comma, asterisk and backslash stands
   * for itself, and a backslash makes any byte after it do so.
   */
  predicate TextAt(s: bytes, i: nat, end: nat, l: bytes)
    decreases |l|
  {
    && i <= end <= |s|
    && if l == [] then i == end
       else
         || (i < end && s[i] == l[0] && s[i] != 44 && s[i] != 42 && s[i] != 92 && TextAt(s, i + 1, end, l[1..]))
         || (i + 1 < end && s[i] == 92 && s[i + 1] == l[0] && TextAt(s, i + 2, end, l[1..]))
  }

  /** entry ::= (weight "*")? label, with a weight of 1 if there is none. */
  ghost predicate EntryAt(s: bytes, i: nat, end: nat, w: u32, l: bytes) {
    && l != [] && end <= |s|
    && (|| (w == 1 && TextAt(s, i, end, l))
        || exists j: nat, d: bytes | j < end ::
             s[j] == 42 && TextAt(s, i, j, d) && DecimalValue(d) == Some(w) && TextAt(s, j + 1, end, l))
  }

  /** list ::= entry ("," entry)*, from i to the end of the input. */
  ghost predicate ListAt(s: bytes, i: nat, ws: seq<u32>, ls: seq<bytes>)
    decreases |ws|
  {
    && |ws| == |ls| > 0
    && if |ws| == 1 then EntryAt(s, i, |s|, ws[0], ls[0])
       else exists k: nat | k < |s| ::
         s[k] == 44 && EntryAt(s, i, k, ws[0], ls[0]) && ListAt(s, k + 1, ws[1..], ls[1..])
  }

  // ---------- Texts ----------

  lemma {:induction false} TextScans(s: bytes, i: nat, end: nat, l: bytes)
    requires TextAt(s, i, end, l) && AtBreak(s, end)
    ensures ScanText(s, i) == Scanned(Text(l), end)
    decreases |l|
  {
    if l != [] {
      assert [l[0]] + l[1..] == l;
      if s[i] == 92 && i + 1 < end && s[i + 1] == l[0] && TextAt(s, i + 2, end, l[1..]) {
        TextScans(s, i + 2, end, l[1..]);
      } else {
        TextScans(s, i + 1, end, l[1..]);
      }
    }
  }

  lemma {:induction false} ScannedText(s: bytes, i: nat)
    requires i <= |s| && ScanText(s, i).token.Text?
    ensures var r := ScanText(s, i);
      TextAt(s, i, r.end, r.token.text) && AtBreak(s, r.end)
    decreases |s| - i
  {
    var r := ScanText(s, i);
    if i < |s| && !Separator(s[i]) {
      var k := if s[i] == BACKSLASH then i + 1 else i;
      ScannedText(s, k + 1);
      assert r.token.text[1..] == ScanText(s, k + 1).token.text;
    }
  }

  lemma TextToken(s: bytes, i: nat, end: nat, l: bytes)
    requires TextAt(s, i, end, l) && AtBreak(s, end) && l != []
    ensures NextToken(s, i) == Scanned(Text(l), end)
  {
    TextScans(s, i, end, l);
  }

  lemma TokenText(s: bytes, i: nat)
    requires i <= |s| && NextToken(s, i).token.Text?
    ensures var r := NextToken(s, i);
      TextAt(s, i, r.end, r.token.text) && AtBreak(s, r.end) && r.token.text != []
  {
    ScannedText(s, i);
  }

  // ---------- Entries ----------

  /** An entry in the grammar is read up to its end. */
  lemma EntryRead(s: bytes, i: nat, end: nat, w: u32, l: bytes)
    requires EntryAt(s, i, end, w, l) && EntryEnds(s, end)
    ensures exists d :: ParseWeight(d) == Some(w) && ParseList(s, i) == ParseEnd(s, end, d, l)
  {
    hide TextAt;
    if w == 1 && TextAt(s, i, end, l) {
      TextToken(s, i, end, l);
      assert DecimalValue([49]) == Some(1);
      assert ParseWeight([49]) == Some(w) && ParseList(s, i) == ParseEnd(s, end, [49], l);
    } else {
      var j: nat, d: bytes :| j < end && s[j] == 42 && TextAt(s, i, j, d) && DecimalValue(d) == Some(w)
                              && TextAt(s, j + 1, end, l);
      TextToken(s, i, j, d);
      assert NextToken(s, j) == Scanned(Asterisk, j + 1);
      TextToken(s, j + 1, end, l);
      WeightedTokens(s, i, j, j + 1, end, d, l);
      assert ParseWeight(d) == Some(w);
    }
  }

  lemma EntryWeighted(s: bytes, i: nat, j: nat, d: bytes, end: nat, w: u32, l: bytes)
    requires l != [] && j < end <= |s|
    requires s[j] == 42 && TextAt(s, i, j, d) && DecimalValue(d) == Some(w) && TextAt(s, j + 1, end, l)
    ensures EntryAt(s, i, end, w, l)
  {
  }

  /** What is read as an entry is one, and the rest is read from its end. */
  lemma ReadEntry(s: bytes, i: nat)
    requires i <= |s| && ParseList(s, i).List?
    ensures exists end: nat, w: u32, l: bytes, d: bytes ::
              i < end <= |s| && EntryAt(s, i, end, w, l) && ParseWeight(d) == Some(w)
              && ParseList(s, i) == ParseEnd(s, end, d, l)
  {
    hide TextAt;
    var t := NextToken(s, i);
    TokenText(s, i);
    var next := NextToken(s, t.end);
    if next.token.Asterisk? {
      var lab := NextToken(s, next.end);
      TokenText(s, next.end);
      assert ParseList(s, i) == ParseEnd(s, lab.end, t.token.text, lab.token.text);
      var w := ParseWeight(t.token.text).value;
      EntryWeighted(s, i, t.end, t.token.text, lab.end, w, lab.token.text);
    } else {
      assert DecimalValue([49]) == Some(1);
      assert EntryAt(s, i, t.end, 1, t.token.text) && ParseWeight([49]) == Some(1);
      assert ParseList(s, i) == ParseEnd(s, t.end, [49], t.token.text);
    }
  }

  // ---------- Lists ----------

  lemma {:induction false} ListRead(s: bytes, i: nat, ws: seq<u32>, ls: seq<bytes>)
    requires i <= |s| && ListAt(s, i, ws, ls)
    ensures ParseList(s, i) == List(ws, ls)
    decreases |ws|
  {
    hide ParseList, EntryAt;
    if |ws| == 1 {
      EntryRead(s, i, |s|, ws[0], ls[0]);
      assert [ws[0]] == ws && [ls[0]] == ls;
    } else {
      var k: nat :| k < |s| && s[k] == 44 && EntryAt(s, i, k, ws[0], ls[0]) && ListAt(s, k + 1, ws[1..], ls[1..]);
      EntryRead(s, i, k, ws[0], ls[0]);
      ListRead(s, k + 1, ws[1..], ls[1..]);
      assert NextToken(s, k) == Scanned(Comma, k + 1);
      assert [ws[0]] + ws[1..] == ws && [ls[0]] + ls[1..] == ls;
    }
  }

  lemma {:induction false} ReadList(s: bytes, i: nat)
    requires i <= |s| && ParseList(s, i).List?
    ensures ListAt(s, i, ParseList(s, i).weights, ParseList(s, i).labels)
    decreases |s| - i
  {
    ReadEntry(s, i);
    hide ParseList, EntryAt;
    var end: nat, w: u32, l: bytes, d: bytes :| i < end <= |s| && EntryAt(s, i, end, w, l) && ParseWeight(d) == Some(w)
                                                && ParseList(s, i) == ParseEnd(s, end, d, l);
    var t := NextToken(s, end);
    if t.token.Comma? {
      assert s[end] == 44 && t.end == end + 1;
      ReadList(s, end + 1);
      var rest := ParseList(s, end + 1);
      assert ([w] + rest.weights)[1..] == rest.weights && ([l] + rest.labels)[1..] == rest.labels;
    }
  }

  /** The parser accepts exactly the lists of the grammar, and returns exactly their weights and labels. */
  lemma {:induction false} ParsesExactly(s: bytes, ws: seq<u32>, ls: seq<bytes>)
    ensures Parse(s) == List(ws, ls) <==> ListAt(s, 0, ws, ls)
  {
    if ListAt(s, 0, ws, ls) {
      ListRead(s, 0, ws, ls);
    } else if Parse(s) == List(ws, ls) {
      ReadList(s, 0);
    }
  }

  /** A weight is a non-empty string of decimal digits, the first of them the most significant. */
  lemma {:induction false} DecimalExactly(d: bytes)
    ensures DecimalValue(d).Some? <==> d != [] && forall i :: 0 <= i < |d| ==> 48 <= d[i] <= 57
    ensures DecimalValue(d).Some? && |d| > 1 ==>
              DecimalValue(d) == Some(10 * DecimalValue(d[..|d| - 1]).value + DecimalValue(d[|d| - 1..]).value)
    ensures |d| == 1 && DecimalValue(d).Some? ==> DecimalValue(d) == Some(d[0] - 48)
  {
    if |d| > 1 {
      DecimalExactly(d[..|d| - 1]);
      assert forall i :: 0 <= i < |d| - 1 ==> d[i] == d[..|d| - 1][i];
    }
  }

  /** After an entry there is a comma or the end: an asterisk is an error. */
  lemma AsteriskAfterEntry()
    ensures !Parse([50, 42, 98, 42, 99]).List?
  {
    var s: bytes := [50, 42, 98, 42, 99];
    if Parse(s).List? {
      ReadList(s, 0);
      NoThirdPart(s, Parse(s).weights, Parse(s).labels);
    }
  }

  lemma NoThirdPart(s: bytes, ws: seq<u32>, ls: seq<bytes>)
    requires s == [50, 42, 98, 42, 99]
    ensures !ListAt(s, 0, ws, ls)
  {
    if ListAt(s, 0, ws, ls) {
      assert EntryAt(s, 0, 5, ws[0], ls[0]);
      NoPlainAsterisk(s, 0, 5, 1, ls[0]);
      var j: nat, d: bytes :| j < 5 && s[j] == 42 && TextAt(s, 0, j, d) && TextAt(s, j + 1, 5, ls[0]);
      if j == 1 { NoPlainAsterisk(s, 2, 5, 3, ls[0]); } else { NoPlainAsterisk(s, 0, 3, 1, d); }
    }
  }

  lemma {:induction false} NoPlainAsterisk(s: bytes, i: nat, end: nat, j: nat, l: bytes)
    requires i <= j < end <= |s| && s[j] == 42 && forall k :: i <= k < j ==> s[k] != 92
    ensures !TextAt(s, i, end, l)
    decreases |l|
  {
    if l != [] && i < j { NoPlainAsterisk(s, i + 1, end, j, l[1..]); }
  }
}
