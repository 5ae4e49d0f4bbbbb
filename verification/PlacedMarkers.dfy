/** Spans of several messages overwritten by bracketed markers, and what can be found in the result. */
module PlacedMarkers {
  import opened TextEdits
  import opened TextSearch
  import opened Ordering
  import opened MessageSpans
  import opened Markers

  ghost predicate DistinctTexts(spans: seq<Span>) {
    forall i, j :: 0 <= i < j < |spans| ==> spans[i].text != spans[j].text
  }

  ghost predicate Absent(contents: seq<string>, p: string) {
    forall o :: !FoundAt(contents, p, o)
  }

  /** Spans that hold what they should and whose replacements are new, distinct bracketed markers. */
  ghost predicate Placeable(contents: seq<string>, spans: seq<Span>, open: char, close: char) {
    && InBounds(contents, spans) && Disjoint(spans) && Matching(contents, spans)
    && DistinctTexts(spans)
    && (forall i :: 0 <= i < |spans| ==> Bracketed(spans[i].text, open, close))
    && (forall i :: 0 <= i < |spans| ==> Absent(contents, spans[i].text))
  }

  lemma PlaceableTail(contents: seq<string>, spans: seq<Span>, open: char, close: char)
    requires Placeable(contents, spans, open, close) && spans != []
    ensures Placeable(contents, spans[1..], open, close)
  {
  }

  /** Where the marker of `s` lands when all `spans` are overwritten. */
  ghost function MarkerPosition(spans: seq<Span>, s: Span): (o: Occurrence)
    requires s in spans
  {
    InOrderElement(spans, s.message, s);
    var k :| 0 <= k < |InOrder(spans, s.message)| && InOrder(spans, s.message)[k] == s;
    Occurrence(s.message, Landing(EditsAt(spans, s.message), k))
  }

  lemma OrderIndex(contents: seq<string>, spans: seq<Span>, s: Span, k: nat)
    requires InBounds(contents, spans) && Disjoint(spans) && s in spans
    requires k < |InOrder(spans, s.message)| && InOrder(spans, s.message)[k] == s
    ensures MarkerPosition(spans, s) == Occurrence(s.message, Landing(EditsAt(spans, s.message), k))
  {
    InOrderElement(spans, s.message, s);
    InOrderFits(contents, spans, s.message);
  }

  lemma AbsentFrom(contents: seq<string>, p: string, m: int, i: int)
    requires Absent(contents, p) && 0 <= m < |contents|
    ensures !OccursAt(contents[m], p, i)
  {
    assert !FoundAt(contents, p, Occurrence(m, i));
  }

  /** Each marker occurs in the marked messages exactly once: where it was put. */
  lemma MarkerFoundOnce(contents: seq<string>, spans: seq<Span>, cur: seq<string>, s: Span, open: char, close: char)
    requires Placeable(contents, spans, open, close) && AllSubstituted(contents, spans, cur) && s in spans
    ensures FoundAt(cur, s.text, MarkerPosition(spans, s))
    ensures forall o :: FoundAt(cur, s.text, o) ==> o == MarkerPosition(spans, s)
  {
    InOrderElement(spans, s.message, s);
    var k :| 0 <= k < |InOrder(spans, s.message)| && InOrder(spans, s.message)[k] == s;
    OrderIndex(contents, spans, s, k);
    InOrderFits(contents, spans, s.message);
    LandingOccurs(contents[s.message], EditsAt(spans, s.message), k);
    forall o | FoundAt(cur, s.text, o) ensures o == MarkerPosition(spans, s) {
      MarkerOnlyThere(contents, spans, cur, s, o, open, close);
    }
  }

  lemma MarkerOnlyThere(contents: seq<string>, spans: seq<Span>, cur: seq<string>, s: Span, o: Occurrence, open: char, close: char)
    requires Placeable(contents, spans, open, close) && AllSubstituted(contents, spans, cur) && s in spans
    requires FoundAt(cur, s.text, o)
    ensures o == MarkerPosition(spans, s)
  {
    var m := o.message;
    var sorted, edits := InOrder(spans, m), EditsAt(spans, m);
    InOrderFits(contents, spans, m);
    forall i | 0 <= i < |sorted| ensures sorted[i] in spans && sorted[i].message == m && Bracketed(edits[i].text, open, close) {
      InOrderElement(spans, m, sorted[i]);
    }
    var inserted, at := MarkerOrigin(contents[m], edits, 0, |contents[m]|, s.text, o.start, open, close);
    if inserted {
      var i :| 0 <= i < |spans| && spans[i] == s;
      var j :| 0 <= j < |spans| && spans[j] == sorted[at];
      assert spans[i].text == spans[j].text;
      assert sorted[at] == s;
      OrderIndex(contents, spans, s, at);
    } else {
      AbsentFrom(contents, s.text, m, at);
    }
  }

  lemma HeadNotInTail(contents: seq<string>, spans: seq<Span>)
    requires InBounds(contents, spans) && Disjoint(spans) && spans != []
    ensures spans[0] !in spans[1..]
  {
    forall i | 0 <= i < |spans[1..]| ensures spans[1..][i] != spans[0] {
      assert Apart(spans[0], spans[i + 1]);
    }
  }

  /** Leaving one span out takes exactly its edit out of its message. */
  lemma InOrderTail(contents: seq<string>, spans: seq<Span>, m: int, k: nat)
    requires InBounds(contents, spans) && Disjoint(spans) && spans != [] && 0 <= m < |contents|
    requires spans[0].message == m ==> k < |InOrder(spans, m)| && InOrder(spans, m)[k] == spans[0]
    ensures InOrder(spans[1..], m)
         == if spans[0].message == m then InOrder(spans, m)[..k] + InOrder(spans, m)[k + 1..] else InOrder(spans, m)
  {
    var s, rest, x := InOrder(spans, m), spans[1..], spans[0];
    HeadNotInTail(contents, spans);
    InOrderFits(contents, spans, m);
    InOrderFits(contents, rest, m);
    assert spans == [x] + rest;
    hide InOrder, InBounds, Disjoint;
    if x.message == m { CutSorted(s, k, SpanKey()); }
    var cut := if x.message == m then s[..k] + s[k + 1..] else s;
    forall y ensures y in cut <==> y in InOrder(rest, m) {
      InOrderElement(spans, m, y);
      InOrderElement(rest, m, y);
    }
    StrictlySortedUnique(cut, InOrder(rest, m), SpanKey());
  }

  lemma ToEditsCut(s: seq<Span>, k: nat)
    requires k < |s|
    ensures ToEdits(s[..k] + s[k + 1..]) == ToEdits(s)[..k] + ToEdits(s)[k + 1..]
  {
  }

  /** Overwrite `length` characters found at `o` with `text`. */
  function PutBack(contents: seq<string>, o: Occurrence, length: nat, text: string): (r: seq<string>)
    requires 0 <= o.message < |contents| && 0 <= o.start && o.start + length <= |contents[o.message]|
    ensures |r| == |contents|
  {
    contents[o.message := Splice(contents[o.message], Edit(o.start, o.start + length, text))]
  }

  /** Putting the first span's text back leaves the messages in which only the others are overwritten. */
  lemma UndoHead(contents: seq<string>, spans: seq<Span>, cur: seq<string>)
    requires InBounds(contents, spans) && Disjoint(spans) && Matching(contents, spans) && spans != []
    requires AllSubstituted(contents, spans, cur)
    ensures InBounds(contents, spans[1..]) && Disjoint(spans[1..])
    ensures FoundAt(cur, spans[0].text, MarkerPosition(spans, spans[0]))
    ensures AllSubstituted(contents, spans[1..],
              PutBack(cur, MarkerPosition(spans, spans[0]), |spans[0].text|, spans[0].expected))
  {
    var x, rest := spans[0], spans[1..];
    UndoHeadHere(contents, spans);
    var cur' := PutBack(cur, MarkerPosition(spans, x), |x.text|, x.expected);
    forall m | 0 <= m < |contents| ensures cur'[m] == SubstituteAt(contents, rest, m) {
      if m != x.message { UndoHeadElsewhere(contents, spans, m); }
    }
  }

  lemma UndoHeadElsewhere(contents: seq<string>, spans: seq<Span>, m: int)
    requires InBounds(contents, spans) && Disjoint(spans) && spans != []
    requires 0 <= m < |contents| && spans[0].message != m
    ensures InBounds(contents, spans[1..]) && Disjoint(spans[1..])
    ensures SubstituteAt(contents, spans[1..], m) == SubstituteAt(contents, spans, m)
  {
    InOrderTail(contents, spans, m, 0);
  }

  lemma UndoHeadHere(contents: seq<string>, spans: seq<Span>)
    requires InBounds(contents, spans) && Disjoint(spans) && Matching(contents, spans) && spans != []
    ensures InBounds(contents, spans[1..]) && Disjoint(spans[1..])
    ensures var o, m := MarkerPosition(spans, spans[0]), spans[0].message;
      && o.message == m
      && OccursAt(SubstituteAt(contents, spans, m), spans[0].text, o.start)
      && SubstituteAt(contents, spans[1..], m)
         == Splice(SubstituteAt(contents, spans, m), Edit(o.start, o.start + |spans[0].text|, spans[0].expected))
  {
    hide InOrder, Landing;
    var x, m := spans[0], spans[0].message;
    InOrderElement(spans, m, x);
    var k :| 0 <= k < |InOrder(spans, m)| && InOrder(spans, m)[k] == x;
    OrderIndex(contents, spans, x, k);
    assert Holds(contents[m], x);
    UndoIndexed(contents, spans, k);
  }

  lemma UndoIndexed(contents: seq<string>, spans: seq<Span>, k: nat)
    requires InBounds(contents, spans) && Disjoint(spans) && spans != []
    requires k < |InOrder(spans, spans[0].message)| && InOrder(spans, spans[0].message)[k] == spans[0]
    requires Holds(contents[spans[0].message], spans[0])
    ensures InBounds(contents, spans[1..]) && Disjoint(spans[1..])
    ensures var x, m := spans[0], spans[0].message;
      var p := Landing(EditsAt(spans, m), k);
      && OccursAt(SubstituteAt(contents, spans, m), x.text, p)
      && SubstituteAt(contents, spans[1..], m) == Splice(SubstituteAt(contents, spans, m), Edit(p, p + |x.text|, x.expected))
  {
    hide InOrder, Landing;
    var m, edits := spans[0].message, EditsAt(spans, spans[0].message);
    SpansTail(contents, spans);
    InOrderFits(contents, spans, m);
    EditsTail(contents, spans, k);
    UndoText(contents[m], edits, k, EditsAt(spans[1..], m), spans[0].expected);
  }

  lemma SpansTail(contents: seq<string>, spans: seq<Span>)
    requires InBounds(contents, spans) && Disjoint(spans) && spans != []
    ensures InBounds(contents, spans[1..]) && Disjoint(spans[1..])
  {
  }

  lemma UndoText(s: string, edits: seq<Edit>, k: nat, rest: seq<Edit>, expected: string)
    requires Fits(edits, 0, |s|) && k < |edits| && rest == edits[..k] + edits[k + 1..]
    requires 0 <= edits[k].start <= edits[k].end <= |s| && s[edits[k].start..edits[k].end] == expected
    ensures Fits(rest, 0, |s|)
    ensures OccursAt(Substitute(s, edits, 0, |s|), edits[k].text, Landing(edits, k))
    ensures Substitute(s, rest, 0, |s|)
         == Splice(Substitute(s, edits, 0, |s|), Edit(Landing(edits, k), Landing(edits, k) + |edits[k].text|, expected))
  {
    UndoOne(s, edits, k);
  }

  lemma EditsTail(contents: seq<string>, spans: seq<Span>, k: nat)
    requires InBounds(contents, spans) && Disjoint(spans) && spans != []
    requires k < |InOrder(spans, spans[0].message)| && InOrder(spans, spans[0].message)[k] == spans[0]
    ensures EditsAt(spans[1..], spans[0].message)
         == EditsAt(spans, spans[0].message)[..k] + EditsAt(spans, spans[0].message)[k + 1..]
  {
    InOrderTail(contents, spans, spans[0].message, k);
    ToEditsCut(InOrder(spans, spans[0].message), k);
  }

  /** With no spans left the messages are the original ones. */
  lemma NothingSubstituted(contents: seq<string>, cur: seq<string>)
    requires InBounds(contents, []) && Disjoint([]) && AllSubstituted(contents, [], cur)
    ensures cur == contents
  {
    forall m | 0 <= m < |contents| ensures cur[m] == contents[m] {
      assert EditsAt([], m) == [];
    }
  }

  method AnyIncludes(contents: seq<string>, p: string) returns (found: bool)
    ensures found <==> !Absent(contents, p)
  {
    for m := 0 to |contents|
      invariant forall o :: FoundAt(contents, p, o) ==> m <= o.message
    {
      IncludesIff(contents[m], p);
      if Includes(contents[m], p) {
        var i :| OccursAt(contents[m], p, i);
        assert FoundAt(contents, p, Occurrence(m, i));
        return true;
      }
      forall o | FoundAt(contents, p, o) ensures m + 1 <= o.message { }
    }
    found := false;
  }
}
