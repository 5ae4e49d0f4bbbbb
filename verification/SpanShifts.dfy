/** How overwriting spans moves the text between them. */
module SpanShifts {
  import opened TextEdits
  import opened Ordering
  import opened MessageSpans
  import opened PlacedMarkers

  ghost function Gain(s: Span): int {
    |s.text| - (s.end - s.start)
  }

  /** How much the replacements to the left of `pos` in message `m` lengthen it. */
  ghost function Shift(spans: seq<Span>, m: int, pos: int): int {
    if spans == [] then 0
    else (if spans[0].message == m && spans[0].start < pos then Gain(spans[0]) else 0) + Shift(spans[1..], m, pos)
  }

  ghost function GainBefore(sorted: seq<Span>, pos: int): int {
    if sorted == [] || sorted[0].start >= pos then 0 else Gain(sorted[0]) + GainBefore(sorted[1..], pos)
  }

  ghost predicate Increasing(sorted: seq<Span>) {
    forall i, j :: 0 <= i < j < |sorted| ==> sorted[i].start < sorted[j].start
  }

  lemma {:induction false} GainIsGrowth(sorted: seq<Span>, k: nat)
    requires Increasing(sorted) && k < |sorted|
    ensures GainBefore(sorted, sorted[k].start) == Growth(ToEdits(sorted)[..k])
  {
    if k > 0 {
      GainIsGrowth(sorted[1..], k - 1);
      assert ToEdits(sorted)[..k][1..] == ToEdits(sorted[1..])[..k - 1];
    } else {
      assert ToEdits(sorted)[..0] == [];
    }
  }

  lemma {:induction false} GainWithout(sorted: seq<Span>, k: nat, pos: int)
    requires Increasing(sorted) && k < |sorted|
    ensures GainBefore(sorted, pos)
         == GainBefore(sorted[..k] + sorted[k + 1..], pos) + (if sorted[k].start < pos then Gain(sorted[k]) else 0)
  {
    var cut := sorted[..k] + sorted[k + 1..];
    if k == 0 {
      assert cut == sorted[1..];
      if sorted[0].start >= pos && sorted[1..] != [] { assert sorted[1].start >= pos; }
    } else {
      GainWithout(sorted[1..], k - 1, pos);
      assert cut[1..] == sorted[1..][..k - 1] + sorted[1..][k..];
    }
  }

  lemma InOrderIncreasing(contents: seq<string>, spans: seq<Span>, m: int)
    requires InBounds(contents, spans) && Disjoint(spans) && 0 <= m < |contents|
    ensures Increasing(InOrder(spans, m))
  {
    InOrderFits(contents, spans, m);
    InOrderAt(contents, spans, m);
  }

  lemma GainTail(contents: seq<string>, spans: seq<Span>, m: int, pos: int)
    requires InBounds(contents, spans) && Disjoint(spans) && 0 <= m < |contents| && spans != [] && spans[0].message == m
    ensures GainBefore(InOrder(spans, m), pos)
         == GainBefore(InOrder(spans[1..], m), pos) + (if spans[0].start < pos then Gain(spans[0]) else 0)
  {
    hide InOrder, GainBefore;
    InOrderElement(spans, m, spans[0]);
    var k :| 0 <= k < |InOrder(spans, m)| && InOrder(spans, m)[k] == spans[0];
    InOrderTail(contents, spans, m, k);
    InOrderIncreasing(contents, spans, m);
    GainWithout(InOrder(spans, m), k, pos);
  }

  /** The lengthening read off the sorted spans is the one summed over the list. */
  lemma {:induction false} GainIsShift(contents: seq<string>, spans: seq<Span>, m: int, pos: int)
    requires InBounds(contents, spans) && Disjoint(spans) && 0 <= m < |contents|
    ensures GainBefore(InOrder(spans, m), pos) == Shift(spans, m, pos)
  {
    if spans != [] {
      hide InOrder, GainBefore;
      SpansTail(contents, spans);
      GainIsShift(contents, spans[1..], m, pos);
      if spans[0].message == m {
        GainTail(contents, spans, m, pos);
      } else {
        InOrderTail(contents, spans, m, 0);
      }
    }
  }

  /** No span of message `m` reaches across `pos`. */
  ghost predicate Uncrossed(spans: seq<Span>, m: int, pos: int) {
    forall i :: 0 <= i < |spans| && spans[i].message == m ==> spans[i].end <= pos || pos <= spans[i].start
  }

  /** Where a position between the spans of message `m` ends up. */
  ghost function Moved(spans: seq<Span>, m: int, pos: int): int {
    pos + Shift(spans, m, pos)
  }

  /** How many of the sorted spans lie to the left of `pos`. */
  ghost function CountBefore(sorted: seq<Span>, pos: int): (k: nat)
    ensures k <= |sorted|
    ensures forall i :: 0 <= i < k ==> sorted[i].start < pos
    ensures k < |sorted| ==> pos <= sorted[k].start
  {
    if sorted == [] || sorted[0].start >= pos then 0 else 1 + CountBefore(sorted[1..], pos)
  }

  lemma {:induction false} GainIsGrowthBefore(sorted: seq<Span>, pos: int)
    ensures GainBefore(sorted, pos) == Growth(ToEdits(sorted)[..CountBefore(sorted, pos)])
  {
    var k := CountBefore(sorted, pos);
    if sorted == [] || sorted[0].start >= pos {
      assert ToEdits(sorted)[..k] == [];
    } else {
      GainIsGrowthBefore(sorted[1..], pos);
      assert ToEdits(sorted)[..k][1..] == ToEdits(sorted[1..])[..k - 1];
      assert ToEdits(sorted)[..k][0] == ToEdits(sorted)[0];
    }
  }

  /** The edits of a message, split at a position none of them crosses. */
  lemma SplitAt(contents: seq<string>, spans: seq<Span>, m: int, pos: int) returns (k: nat)
    requires InBounds(contents, spans) && Disjoint(spans) && 0 <= m < |contents|
    requires 0 <= pos <= |contents[m]| && Uncrossed(spans, m, pos)
    ensures k == CountBefore(InOrder(spans, m), pos) && k <= |EditsAt(spans, m)|
    ensures k > 0 ==> EditsAt(spans, m)[k - 1].end <= pos
    ensures k < |EditsAt(spans, m)| ==> pos <= EditsAt(spans, m)[k].start
    ensures Shift(spans, m, pos) == Growth(EditsAt(spans, m)[..k])
    ensures Fits(EditsAt(spans, m), 0, |contents[m]|)
  {
    var sorted := InOrder(spans, m);
    k := CountBefore(sorted, pos);
    InOrderFits(contents, spans, m);
    GainIsGrowthBefore(sorted, pos);
    GainIsShift(contents, spans, m, pos);
    if k > 0 {
      InOrderElement(spans, m, sorted[k - 1]);
    }
  }

  /** Text that no span touches is found again at its moved position. */
  lemma SliceMoved(contents: seq<string>, spans: seq<Span>, m: int, a: int, b: int)
    requires InBounds(contents, spans) && Disjoint(spans) && 0 <= m < |contents|
    requires 0 <= a <= b <= |contents[m]| && Uncrossed(spans, m, a)
    requires forall i :: 0 <= i < |spans| && spans[i].message == m ==> spans[i].end <= a || b <= spans[i].start
    ensures OccursAt(SubstituteAt(contents, spans, m), contents[m][a..b], Moved(spans, m, a))
  {
    hide InOrder, Shift;
    var k := SplitAt(contents, spans, m, a);
    if k < |EditsAt(spans, m)| {
      InOrderElement(spans, m, InOrder(spans, m)[k]);
      InOrderAt(contents, spans, m);
    }
    SliceSurvives(contents[m], EditsAt(spans, m), k, a, b);
  }

  /** Moving keeps the order of positions that no span crosses. */
  lemma MovedMonotone(contents: seq<string>, spans: seq<Span>, m: int, a: int, b: int)
    requires InBounds(contents, spans) && Disjoint(spans) && 0 <= m < |contents|
    requires 0 <= a <= b <= |contents[m]| && Uncrossed(spans, m, a) && Uncrossed(spans, m, b)
    ensures 0 <= Moved(spans, m, a) <= Moved(spans, m, b) <= |SubstituteAt(contents, spans, m)|
  {
    var s, edits := contents[m], EditsAt(spans, m);
    var j := SplitAt(contents, spans, m, a);
    var k := SplitAt(contents, spans, m, b);
    CountMonotone(InOrder(spans, m), a, b);
    PrefixLength(s, edits, j, a);
    PrefixLength(s, edits, k, b);
    MiddleLength(s, edits, j, k, a, b);
  }

  lemma {:induction false} CountMonotone(sorted: seq<Span>, a: int, b: int)
    requires a <= b
    ensures CountBefore(sorted, a) <= CountBefore(sorted, b)
  {
    if sorted != [] && sorted[0].start < a { CountMonotone(sorted[1..], a, b); }
  }

  lemma PrefixLength(s: string, edits: seq<Edit>, k: nat, pos: int)
    requires Fits(edits, 0, |s|) && k <= |edits| && 0 <= pos <= |s|
    requires k > 0 ==> edits[k - 1].end <= pos
    requires k < |edits| ==> pos <= edits[k].start
    ensures 0 <= pos + Growth(edits[..k]) <= |Substitute(s, edits, 0, |s|)|
  {
    FitsAround(edits, k, pos, pos, |s|);
    SubstituteConcat(s, edits[..k], edits[k..], 0, pos, |s|);
    SubstituteLength(s, edits[..k], 0, pos);
    assert edits[..k] + edits[k..] == edits;
  }

  lemma MiddleLength(s: string, edits: seq<Edit>, j: nat, k: nat, a: int, b: int)
    requires Fits(edits, 0, |s|) && j <= k <= |edits| && 0 <= a <= b <= |s|
    requires j > 0 ==> edits[j - 1].end <= a
    requires j < |edits| ==> a <= edits[j].start
    requires k > 0 ==> edits[k - 1].end <= b
    requires k < |edits| ==> b <= edits[k].start
    ensures a + Growth(edits[..j]) <= b + Growth(edits[..k])
  {
    hide Growth;
    FitsAround(edits, k, b, b, |s|);
    var left := edits[..k];
    assert left[..j] == edits[..j];
    FitsAround(left, j, a, a, b);
    SubstituteConcat(s, left[..j], left[j..], 0, a, b);
    assert left[..j] + left[j..] == left;
    SubstituteLength(s, left, 0, b);
    SubstituteLength(s, left[..j], 0, a);
  }
}
