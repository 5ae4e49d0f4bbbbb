/** Fencing and restoring when the host changes nothing. */
module FenceRoundTrip {
  import opened TextEdits
  import opened TextSearch
  import opened Ordering
  import opened MessageSpans
  import Marks = Markers
  import opened PlacedMarkers
  import opened PromptEntries
  import opened Brackets
  import opened SpanShifts
  import opened FenceText
  import opened FenceLease
  import opened FenceRestore

  // ---- The fences of one message ----

  ghost predicate Installed(contents: seq<string>, id: string, entries: seq<FenceEntry>) {
    && SafeText(id) && AllInPlace(contents, entries)
    && (forall i :: 0 <= i < |entries| ==> MarkedWith(id, entries[i]) && MarkersAbsent(contents, entries[i]))
    && Disjoint(WrapsOf(contents, entries))
  }

  /** The entry behind a wrapped span. */
  ghost function Behind(contents: seq<string>, entries: seq<FenceEntry>, s: Span): (i: nat)
    requires AllInPlace(contents, entries) && s in WrapsOf(contents, entries)
    ensures i < |entries| && WrapsOf(contents, entries)[i] == s
  {
    var i :| 0 <= i < |entries| && WrapsOf(contents, entries)[i] == s; i
  }

  lemma BehindUnique(contents: seq<string>, entries: seq<FenceEntry>, i: nat)
    requires AllInPlace(contents, entries) && Disjoint(WrapsOf(contents, entries)) && i < |entries|
    ensures WrapsOf(contents, entries)[i] in WrapsOf(contents, entries)
    ensures Behind(contents, entries, WrapsOf(contents, entries)[i]) == i
  {
    var wraps := WrapsOf(contents, entries);
    assert wraps[i] in wraps;
    var j := Behind(contents, entries, wraps[i]);
    assert i < j ==> Apart(wraps[i], wraps[j]);
  }

  ghost function FenceOf(e: FenceEntry): Fence {
    Fence(e.start, e.end, e.startMarker, e.endMarker)
  }

  /** The k-th entry of message `m`, from the left. */
  ghost function Ranked(contents: seq<string>, entries: seq<FenceEntry>, m: int, k: nat): (i: nat)
    requires AllInPlace(contents, entries) && k < |InOrder(WrapsOf(contents, entries), m)|
    ensures i < |entries| && entries[i].message == m
    ensures WrapsOf(contents, entries)[i] == InOrder(WrapsOf(contents, entries), m)[k]
  {
    InOrderElement(WrapsOf(contents, entries), m, InOrder(WrapsOf(contents, entries), m)[k]);
    Behind(contents, entries, InOrder(WrapsOf(contents, entries), m)[k])
  }

  ghost function FencesAt(contents: seq<string>, entries: seq<FenceEntry>, m: int): (r: seq<Fence>)
    requires AllInPlace(contents, entries)
    ensures |r| == |InOrder(WrapsOf(contents, entries), m)|
    ensures forall k :: 0 <= k < |r| ==> r[k] == FenceOf(entries[Ranked(contents, entries, m, k)])
  {
    seq(|InOrder(WrapsOf(contents, entries), m)|, k requires 0 <= k < |InOrder(WrapsOf(contents, entries), m)| =>
      FenceOf(entries[Ranked(contents, entries, m, k)]))
  }

  lemma HasRank(contents: seq<string>, entries: seq<FenceEntry>, i: nat)
    requires AllInPlace(contents, entries) && Disjoint(WrapsOf(contents, entries)) && i < |entries|
    ensures exists k: nat ::
      k < |InOrder(WrapsOf(contents, entries), entries[i].message)| && Ranked(contents, entries, entries[i].message, k) == i
  {
    var wraps, m := WrapsOf(contents, entries), entries[i].message;
    BehindUnique(contents, entries, i);
    InOrderElement(wraps, m, wraps[i]);
    var k :| 0 <= k < |InOrder(wraps, m)| && InOrder(wraps, m)[k] == wraps[i];
    assert Ranked(contents, entries, m, k) == i;
  }

  /** How many entries of its message stand to the left of entry `i`. */
  ghost function Rank(contents: seq<string>, entries: seq<FenceEntry>, i: nat): (k: nat)
    requires AllInPlace(contents, entries) && Disjoint(WrapsOf(contents, entries)) && i < |entries|
    ensures k < |InOrder(WrapsOf(contents, entries), entries[i].message)|
    ensures Ranked(contents, entries, entries[i].message, k) == i
  {
    HasRank(contents, entries, i);
    var k: nat :|
      k < |InOrder(WrapsOf(contents, entries), entries[i].message)| && Ranked(contents, entries, entries[i].message, k) == i;
    k
  }

  lemma FencesFitAt(contents: seq<string>, entries: seq<FenceEntry>, m: int)
    requires AllInPlace(contents, entries) && Disjoint(WrapsOf(contents, entries)) && 0 <= m < |contents|
    ensures FencesFit(FencesAt(contents, entries, m), 0, |contents[m]|)
    ensures EditsAt(WrapsOf(contents, entries), m) == Wraps(contents[m], FencesAt(contents, entries, m), 0)
  {
    var wraps := WrapsOf(contents, entries);
    var fences := FencesAt(contents, entries, m);
    InOrderFits(contents, wraps, m);
    InOrderAt(contents, wraps, m);
    FencesFitIntro(fences, 0, |contents[m]|);
    WrapsElements(contents[m], fences, 0);
    var edits := EditsAt(wraps, m);
    forall k | 0 <= k < |edits| ensures edits[k] == Wraps(contents[m], fences, 0)[k] {
      var i := Ranked(contents, entries, m, k);
      assert fences[k] == FenceOf(entries[i]);
    }
  }

  lemma {:induction false} FencesFitIntro(fences: seq<Fence>, from: int, to: int)
    requires 0 <= from <= to
    requires forall i :: 0 <= i < |fences| ==> from <= fences[i].start < fences[i].end <= to
    requires forall i, j :: 0 <= i < j < |fences| ==> fences[i].end <= fences[j].start
    ensures FencesFit(fences, from, to)
  {
    if fences != [] { FencesFitIntro(fences[1..], fences[0].end, to); }
  }

  lemma {:induction false} WrapsElements(s: string, fences: seq<Fence>, from: int)
    requires FencesFit(fences, from, |s|)
    ensures forall k :: 0 <= k < |fences| ==> 0 <= fences[k].start < fences[k].end <= |s|
    ensures forall k :: 0 <= k < |fences| ==>
      Wraps(s, fences, from)[k]
      == Edit(fences[k].start, fences[k].end, fences[k].before + s[fences[k].start..fences[k].end] + fences[k].after)
  {
    FencesBounds(fences, from, |s|);
    if fences != [] {
      WrapsElements(s, fences[1..], fences[0].end);
      FencesBounds(fences[1..], fences[0].end, |s|);
    }
  }

  /** The insertions that turn one original message into the fenced one. */
  ghost function MarksAt(contents: seq<string>, entries: seq<FenceEntry>, m: int): seq<Edit>
    requires AllInPlace(contents, entries)
  {
    FenceText.Marks(FencesAt(contents, entries, m))
  }

  lemma FencedIsMarked(contents: seq<string>, entries: seq<FenceEntry>, m: int)
    requires AllInPlace(contents, entries) && Disjoint(WrapsOf(contents, entries)) && 0 <= m < |contents|
    ensures Fits(MarksAt(contents, entries, m), 0, |contents[m]|)
    ensures SubstituteAt(contents, WrapsOf(contents, entries), m)
         == Substitute(contents[m], MarksAt(contents, entries, m), 0, |contents[m]|)
  {
    FencesFitAt(contents, entries, m);
    InOrderFits(contents, WrapsOf(contents, entries), m);
    WrapsAreMarks(contents[m], FencesAt(contents, entries, m), 0);
  }

  // ---- Where the markers stand in the fenced messages ----

  lemma MarkAt(contents: seq<string>, entries: seq<FenceEntry>, m: int, q: nat)
    requires AllInPlace(contents, entries) && q < |MarksAt(contents, entries, m)|
    ensures q / 2 < |FencesAt(contents, entries, m)|
    ensures var e := entries[Ranked(contents, entries, m, q / 2)];
      MarksAt(contents, entries, m)[q]
      == if q % 2 == 0 then Edit(e.start, e.start, e.startMarker) else Edit(e.end, e.end, e.endMarker)
  {
    hide InOrder, FenceText.Marks;
    var k := q / 2;
    assert q == 2 * k || q == 2 * k + 1;
    assert FencesAt(contents, entries, m)[k] == FenceOf(entries[Ranked(contents, entries, m, k)]);
  }

  ghost predicate DistinctOrders(entries: seq<FenceEntry>) {
    forall i, j :: 0 <= i < j < |entries| ==> entries[i].order != entries[j].order
  }

  lemma MarksBracketed(contents: seq<string>, id: string, entries: seq<FenceEntry>, m: int)
    requires Installed(contents, id, entries)
    ensures Marks.AllBracketed(MarksAt(contents, entries, m), FENCE_OPEN, FENCE_CLOSE)
  {
    var marks := MarksAt(contents, entries, m);
    forall q | 0 <= q < |marks| ensures Marks.Bracketed(marks[q].text, FENCE_OPEN, FENCE_CLOSE) {
      MarkAt(contents, entries, m, q);
      var e := entries[Ranked(contents, entries, m, q / 2)];
      FenceBracketed(id, e.order);
    }
  }

  /** A marker found in the fenced messages is one of the marks, where that mark landed. */
  lemma MarkFound(contents: seq<string>, id: string, entries: seq<FenceEntry>, fenced: seq<string>, i: nat, p: string, o: Occurrence)
    returns (q: nat)
    requires Installed(contents, id, entries) && i < |entries|
    requires AllSubstituted(contents, WrapsOf(contents, entries), fenced)
    requires p == entries[i].startMarker || p == entries[i].endMarker
    requires FoundAt(fenced, p, o)
    ensures q < |MarksAt(contents, entries, o.message)|
    ensures MarksAt(contents, entries, o.message)[q].text == p
    ensures o.start == Landing(MarksAt(contents, entries, o.message), q)
  {
    var m := o.message;
    FencedIsMarked(contents, entries, m);
    MarksBracketed(contents, id, entries, m);
    FenceBracketed(id, entries[i].order);
    var inserted, at := Marks.MarkerOrigin(contents[m], MarksAt(contents, entries, m), 0, |contents[m]|, p, o.start, FENCE_OPEN, FENCE_CLOSE);
    if inserted {
      q := at;
    } else {
      assert MarkersAbsent(contents, entries[i]);
      AbsentFrom(contents, p, m, at);
    }
  }

  lemma MarkOwner(contents: seq<string>, id: string, entries: seq<FenceEntry>, m: int, q: nat, i: nat)
    requires Installed(contents, id, entries) && DistinctOrders(entries) && i < |entries|
    requires q < |MarksAt(contents, entries, m)|
    ensures MarksAt(contents, entries, m)[q].text == entries[i].startMarker ==>
      q % 2 == 0 && entries[i].message == m && Ranked(contents, entries, m, q / 2) == i
    ensures MarksAt(contents, entries, m)[q].text == entries[i].endMarker ==>
      q % 2 == 1 && entries[i].message == m && Ranked(contents, entries, m, q / 2) == i
  {
    hide StartMarker, EndMarker, InOrder;
    MarkAt(contents, entries, m, q);
    var j := Ranked(contents, entries, m, q / 2);
    assert MarkedWith(id, entries[i]) && MarkedWith(id, entries[j]);
    FenceInjective(id, entries[j].order, entries[i].order);
    FenceInjective(id, entries[i].order, entries[j].order);
  }

  lemma RankUnique(contents: seq<string>, entries: seq<FenceEntry>, m: int, j: nat, k: nat)
    requires AllInPlace(contents, entries) && Disjoint(WrapsOf(contents, entries)) && 0 <= m < |contents|
    requires j < |InOrder(WrapsOf(contents, entries), m)| && k < |InOrder(WrapsOf(contents, entries), m)|
    requires Ranked(contents, entries, m, j) == Ranked(contents, entries, m, k)
    ensures j == k
  {
    InOrderFits(contents, WrapsOf(contents, entries), m);
  }

  lemma MarkLands(contents: seq<string>, entries: seq<FenceEntry>, fenced: seq<string>, m: int, q: nat)
    requires AllInPlace(contents, entries) && Disjoint(WrapsOf(contents, entries)) && 0 <= m < |contents|
    requires AllSubstituted(contents, WrapsOf(contents, entries), fenced)
    requires q < |MarksAt(contents, entries, m)|
    ensures FoundAt(fenced, MarksAt(contents, entries, m)[q].text, Occurrence(m, Landing(MarksAt(contents, entries, m), q)))
  {
    FencedIsMarked(contents, entries, m);
    LandingOccurs(contents[m], MarksAt(contents, entries, m), q);
  }

  /** Where mark `q` of message `m` stands in the fenced messages. */
  ghost function MarkPlace(contents: seq<string>, entries: seq<FenceEntry>, m: int, q: nat): Occurrence
    requires AllInPlace(contents, entries) && q < |MarksAt(contents, entries, m)|
  {
    Occurrence(m, Landing(MarksAt(contents, entries, m), q))
  }

  /** The marker that entry `e` contributes at an even or odd mark. */
  ghost function MarkerOf(e: FenceEntry, q: nat): string {
    if q % 2 == 0 then e.startMarker else e.endMarker
  }

  /** Mark `q` of the message of entry `i` is one of its two. */
  ghost predicate IsMarkOf(contents: seq<string>, entries: seq<FenceEntry>, i: nat, q: nat)
    requires AllInPlace(contents, entries)
  {
    && i < |entries| && q < |MarksAt(contents, entries, entries[i].message)|
    && Ranked(contents, entries, entries[i].message, q / 2) == i
  }

  lemma SameMark(contents: seq<string>, id: string, entries: seq<FenceEntry>, i: nat, q: nat, m: int, r: nat)
    requires Installed(contents, id, entries) && DistinctOrders(entries) && IsMarkOf(contents, entries, i, q)
    requires r < |MarksAt(contents, entries, m)| && MarksAt(contents, entries, m)[r].text == MarkerOf(entries[i], q)
    ensures m == entries[i].message && r == q
  {
    hide InOrder, StartMarker, EndMarker, FenceText.Marks;
    assert MarkedWith(id, entries[i]);
    FenceInjective(id, entries[i].order, entries[i].order);
    MarkOwner(contents, id, entries, m, r, i);
    RankUnique(contents, entries, m, r / 2, q / 2);
  }

  lemma OneMark(contents: seq<string>, id: string, entries: seq<FenceEntry>, fenced: seq<string>, i: nat, q: nat)
    requires Installed(contents, id, entries) && DistinctOrders(entries) && IsMarkOf(contents, entries, i, q)
    requires AllSubstituted(contents, WrapsOf(contents, entries), fenced)
    ensures OnlyAt(fenced, MarkerOf(entries[i], q), MarkPlace(contents, entries, entries[i].message, q))
  {
    var m, p := entries[i].message, MarkerOf(entries[i], q);
    MarkAt(contents, entries, m, q);
    MarkLands(contents, entries, fenced, m, q);
    forall o | FoundAt(fenced, p, o) ensures o == MarkPlace(contents, entries, m, q) {
      var r := MarkFound(contents, id, entries, fenced, i, p, o);
      SameMark(contents, id, entries, i, q, o.message, r);
    }
  }

  // ---- What the restoring side finds there ----

  /** Where the two markers of entry `i` stand in the fenced messages. */
  ghost function Expected(contents: seq<string>, entries: seq<FenceEntry>, i: nat): Observed
    requires AllInPlace(contents, entries) && Disjoint(WrapsOf(contents, entries)) && i < |entries|
  {
    var e, marks, q := entries[i], MarksAt(contents, entries, entries[i].message), 2 * Rank(contents, entries, i);
    Observed(e.message, Landing(marks, q), Landing(marks, q) + |e.startMarker|,
             Landing(marks, q + 1), Landing(marks, q + 1) + |e.endMarker|)
  }

  lemma PairOfMarks(contents: seq<string>, entries: seq<FenceEntry>, i: nat, k: nat)
    requires AllInPlace(contents, entries) && i < |entries|
    requires k < |FencesAt(contents, entries, entries[i].message)| && Ranked(contents, entries, entries[i].message, k) == i
    ensures 2 * k + 1 < |MarksAt(contents, entries, entries[i].message)|
    ensures MarksAt(contents, entries, entries[i].message)[2 * k] == Edit(entries[i].start, entries[i].start, entries[i].startMarker)
    ensures MarksAt(contents, entries, entries[i].message)[2 * k + 1] == Edit(entries[i].end, entries[i].end, entries[i].endMarker)
  {
    assert FencesAt(contents, entries, entries[i].message)[k] == FenceOf(entries[i]);
  }

  lemma RankMarks(contents: seq<string>, entries: seq<FenceEntry>, i: nat)
    requires AllInPlace(contents, entries) && Disjoint(WrapsOf(contents, entries)) && i < |entries|
    ensures var q := 2 * Rank(contents, entries, i);
      && IsMarkOf(contents, entries, i, q) && IsMarkOf(contents, entries, i, q + 1)
      && MarksAt(contents, entries, entries[i].message)[q] == Edit(entries[i].start, entries[i].start, entries[i].startMarker)
      && MarksAt(contents, entries, entries[i].message)[q + 1] == Edit(entries[i].end, entries[i].end, entries[i].endMarker)
  {
    var k := Rank(contents, entries, i);
    PairOfMarks(contents, entries, i, k);
    Halves(k);
  }

  lemma Halves(k: nat)
    ensures 2 * k / 2 == k && (2 * k + 1) / 2 == k && 2 * k % 2 == 0 && (2 * k + 1) % 2 == 1
  {
  }

  /** The body keeps its length between its markers. */
  lemma ExpectedBody(contents: seq<string>, entries: seq<FenceEntry>, i: nat)
    requires AllInPlace(contents, entries) && Disjoint(WrapsOf(contents, entries)) && i < |entries|
    ensures var o := Expected(contents, entries, i);
      o.bodyEnd - o.bodyStart == entries[i].end - entries[i].start
  {
    hide InOrder, Growth, FenceText.Marks, FencesAt;
    RankMarks(contents, entries, i);
    GrowthNext(MarksAt(contents, entries, entries[i].message), 2 * Rank(contents, entries, i));
  }

  ghost predicate SameSpeaker(host: seq<Message>, e: FenceEntry) {
    0 <= e.message < |host| && host[e.message].role == e.role && host[e.message].name == e.name
  }

  lemma ExpectedSeen(contents: seq<string>, id: string, entries: seq<FenceEntry>, host: seq<Message>, i: nat)
    requires Installed(contents, id, entries) && DistinctOrders(entries) && i < |entries|
    requires AllSubstituted(contents, WrapsOf(contents, entries), Contents(host))
    requires SameSpeaker(host, entries[i])
    ensures SeenAt(host, entries[i], Expected(contents, entries, i))
  {
    var q := 2 * Rank(contents, entries, i);
    RankMarks(contents, entries, i);
    Halves(Rank(contents, entries, i));
    hide DistinctOrders, AllSubstituted, IsMarkOf, AllInPlace, WrapsOf, Disjoint, OnlyAt, MarksAt, InOrder, Ranked, FencesAt, Landing;
    OneMark(contents, id, entries, Contents(host), i, q);
    OneMark(contents, id, entries, Contents(host), i, q + 1);
    ExpectedBody(contents, entries, i);
    assert InPlace(contents, entries[i]);
  }

  lemma ExpectedApart(contents: seq<string>, entries: seq<FenceEntry>, i: nat, j: nat)
    requires AllInPlace(contents, entries) && Disjoint(WrapsOf(contents, entries)) && i < |entries| && j < |entries|
    requires entries[i].message == entries[j].message && Rank(contents, entries, i) < Rank(contents, entries, j)
    ensures Expected(contents, entries, i).markerEnd <= Expected(contents, entries, j).markerStart
  {
    var m := entries[i].message;
    assert InPlace(contents, entries[i]);
    FencedIsMarked(contents, entries, m);
    RankMarks(contents, entries, i);
    RankMarks(contents, entries, j);
    LandingsOrdered(MarksAt(contents, entries, m), 0, |contents[m]|, 2 * Rank(contents, entries, i) + 1, 2 * Rank(contents, entries, j));
  }
}
