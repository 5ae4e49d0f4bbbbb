/** Restoring the fences of a prompt the host did not touch: exactly when it succeeds, and what it gives back. */
module FenceUndisturbed {
  import opened TextEdits
  import opened TextSearch
  import opened Ordering
  import opened MessageSpans
  import opened PlacedMarkers
  import opened PromptEntries
  import opened Brackets
  import opened SpanShifts
  import opened FenceText
  import opened FenceLease
  import opened FenceRestore
  import opened FenceRoundTrip

  ghost predicate AllExpected(contents: seq<string>, entries: seq<FenceEntry>, observed: seq<Observed>)
    requires AllInPlace(contents, entries) && Disjoint(WrapsOf(contents, entries))
  {
    |observed| == |entries| && forall i :: 0 <= i < |entries| ==> observed[i] == Expected(contents, entries, i)
  }

  lemma MarkersNonEmpty(id: string, entries: seq<FenceEntry>)
    requires SafeText(id) && forall i :: 0 <= i < |entries| ==> MarkedWith(id, entries[i])
    ensures FenceRestore.Markers(entries)
  {
  }

  lemma RanksDiffer(contents: seq<string>, entries: seq<FenceEntry>, i: nat, j: nat)
    requires AllInPlace(contents, entries) && Disjoint(WrapsOf(contents, entries)) && i < |entries| && j < |entries|
    requires i != j && entries[i].message == entries[j].message
    ensures Rank(contents, entries, i) != Rank(contents, entries, j)
  {
  }

  lemma ExpectedDisjoint(contents: seq<string>, entries: seq<FenceEntry>, observed: seq<Observed>)
    requires AllInPlace(contents, entries) && Disjoint(WrapsOf(contents, entries))
    requires AllExpected(contents, entries, observed)
    ensures Disjoint(Extents(observed))
  {
    var extents := Extents(observed);
    forall i, j | 0 <= i < j < |extents| ensures Apart(extents[i], extents[j]) {
      if entries[i].message == entries[j].message {
        RanksDiffer(contents, entries, i, j);
        if Rank(contents, entries, i) < Rank(contents, entries, j) {
          ExpectedApart(contents, entries, i, j);
        } else {
          ExpectedApart(contents, entries, j, i);
        }
      }
    }
  }

  // ---- The erasures take every mark back ----

  /** The erasure of mark `q` among the marks of one message. */
  ghost function EraseEdit(marks: seq<Edit>, m: int, q: nat): Span
    requires q < |marks|
  {
    Span(m, Landing(marks, q), Landing(marks, q) + |marks[q].text|, marks[q].text, "")
  }

  ghost function EraseMarks(contents: seq<string>, entries: seq<FenceEntry>, m: int): (r: seq<Span>)
    requires AllInPlace(contents, entries)
    ensures |r| == |MarksAt(contents, entries, m)|
    ensures forall q :: 0 <= q < |r| ==> r[q] == EraseEdit(MarksAt(contents, entries, m), m, q)
  {
    seq(|MarksAt(contents, entries, m)|, q requires 0 <= q < |MarksAt(contents, entries, m)| =>
      EraseEdit(MarksAt(contents, entries, m), m, q))
  }

  lemma MarkNonEmpty(contents: seq<string>, id: string, entries: seq<FenceEntry>, m: int, q: nat)
    requires Installed(contents, id, entries) && q < |MarksAt(contents, entries, m)|
    ensures MarksAt(contents, entries, m)[q].text != ""
    ensures MarksAt(contents, entries, m)[q].start == MarksAt(contents, entries, m)[q].end
  {
    MarkAt(contents, entries, m, q);
    assert MarkedWith(id, entries[Ranked(contents, entries, m, q / 2)]);
  }

  lemma EraseMarksSorted(contents: seq<string>, id: string, entries: seq<FenceEntry>, m: int)
    requires Installed(contents, id, entries) && 0 <= m < |contents|
    ensures StrictlySorted(EraseMarks(contents, entries, m), SpanKey())
    ensures Increasing(EraseMarks(contents, entries, m))
  {
    var erase, marks := EraseMarks(contents, entries, m), MarksAt(contents, entries, m);
    FencedIsMarked(contents, entries, m);
    forall q, r | 0 <= q < r < |erase| ensures erase[q].start < erase[r].start {
      LandingsOrdered(marks, 0, |contents[m]|, q, r);
      MarkNonEmpty(contents, id, entries, m, q);
    }
  }

  lemma StartIsMark(contents: seq<string>, entries: seq<FenceEntry>, i: nat)
    requires AllInPlace(contents, entries) && Disjoint(WrapsOf(contents, entries)) && i < |entries|
    requires 2 * Rank(contents, entries, i) < |MarksAt(contents, entries, entries[i].message)|
    ensures StartErasure(entries[i], Expected(contents, entries, i))
         == EraseEdit(MarksAt(contents, entries, entries[i].message), entries[i].message, 2 * Rank(contents, entries, i))
  {
    PairOfMarks(contents, entries, i, Rank(contents, entries, i));
  }

  lemma EndIsMark(contents: seq<string>, entries: seq<FenceEntry>, i: nat)
    requires AllInPlace(contents, entries) && Disjoint(WrapsOf(contents, entries)) && i < |entries|
    requires 2 * Rank(contents, entries, i) + 1 < |MarksAt(contents, entries, entries[i].message)|
    ensures EndErasure(entries[i], Expected(contents, entries, i))
         == EraseEdit(MarksAt(contents, entries, entries[i].message), entries[i].message, 2 * Rank(contents, entries, i) + 1)
  {
    PairOfMarks(contents, entries, i, Rank(contents, entries, i));
  }

  lemma ErasuresListed(entries: seq<FenceEntry>, observed: seq<Observed>, i: nat)
    requires |observed| == |entries| && i < |entries|
    ensures StartErasure(entries[i], observed[i]) in Erasures(entries, observed)
    ensures EndErasure(entries[i], observed[i]) in Erasures(entries, observed)
  {
    var erasures := Erasures(entries, observed);
    Halves(i);
    assert erasures[2 * i] in erasures && erasures[2 * i + 1] in erasures;
  }

  lemma EraseMarkOfEntry(contents: seq<string>, entries: seq<FenceEntry>, observed: seq<Observed>, i: nat, q: nat, s: Span)
    requires AllInPlace(contents, entries) && Disjoint(WrapsOf(contents, entries)) && |observed| == |entries|
    requires i < |entries| && observed[i] == Expected(contents, entries, i)
    requires q == 2 * Rank(contents, entries, i) || q == 2 * Rank(contents, entries, i) + 1
    requires q < |MarksAt(contents, entries, entries[i].message)| && s == EraseEdit(MarksAt(contents, entries, entries[i].message), entries[i].message, q)
    ensures s == StartErasure(entries[i], observed[i]) || s == EndErasure(entries[i], observed[i])
  {
    if q == 2 * Rank(contents, entries, i) {
      StartIsMark(contents, entries, i);
    } else {
      EndIsMark(contents, entries, i);
    }
  }

  /** Each mark is erased by the erasure of the entry it belongs to. */
  lemma EraseMarkListed(contents: seq<string>, entries: seq<FenceEntry>, observed: seq<Observed>, m: int, q: nat)
    requires AllInPlace(contents, entries) && Disjoint(WrapsOf(contents, entries)) && AllExpected(contents, entries, observed)
    requires 0 <= m < |contents| && q < |MarksAt(contents, entries, m)|
    ensures EraseEdit(MarksAt(contents, entries, m), m, q) in Erasures(entries, observed)
  {
    var i := Ranked(contents, entries, m, q / 2);
    RankUnique(contents, entries, m, q / 2, Rank(contents, entries, i));
    EraseMarkOfEntry(contents, entries, observed, i, q, EraseEdit(MarksAt(contents, entries, m), m, q));
    ErasuresListed(entries, observed, i);
  }

  lemma ErasureIsMark(contents: seq<string>, entries: seq<FenceEntry>, observed: seq<Observed>, s: Span)
    requires AllInPlace(contents, entries) && Disjoint(WrapsOf(contents, entries)) && AllExpected(contents, entries, observed)
    requires s in Erasures(entries, observed)
    ensures s in EraseMarks(contents, entries, s.message)
  {
    hide InOrder, Landing, FencesAt;
    var k :| 0 <= k < 2 * |entries| && Erasures(entries, observed)[k] == s;
    var i := k / 2;
    var erase := EraseMarks(contents, entries, entries[i].message);
    var q := 2 * Rank(contents, entries, i);
    RankMarks(contents, entries, i);
    StartIsMark(contents, entries, i);
    EndIsMark(contents, entries, i);
    assert erase[q] in erase && erase[q + 1] in erase;
  }

  lemma ErasuresAreMarks(host: seq<Message>, contents: seq<string>, id: string, entries: seq<FenceEntry>, observed: seq<Observed>, m: int)
    requires Installed(contents, id, entries) && AllExpected(contents, entries, observed) && 0 <= m < |contents|
    requires |host| == |contents| && Erasable(host, entries, observed)
    ensures InOrder(Erasures(entries, observed), m) == EraseMarks(contents, entries, m)
  {
    var erasures, erase := Erasures(entries, observed), EraseMarks(contents, entries, m);
    InOrderFits(Contents(host), erasures, m);
    EraseMarksSorted(contents, id, entries, m);
    forall s ensures s in InOrder(erasures, m) <==> s in erase {
      InOrderElement(erasures, m, s);
      if s in erasures && s.message == m {
        ErasureIsMark(contents, entries, observed, s);
      }
      if s in erase {
        var q :| 0 <= q < |erase| && erase[q] == s;
        EraseMarkListed(contents, entries, observed, m, q);
      }
    }
    StrictlySortedUnique(InOrder(erasures, m), erase, SpanKey());
  }

  lemma EraseMarksInverse(contents: seq<string>, id: string, entries: seq<FenceEntry>, m: int)
    requires Installed(contents, id, entries) && 0 <= m < |contents|
    ensures Inverse(contents[m], MarksAt(contents, entries, m), ToEdits(EraseMarks(contents, entries, m)))
  {
    var s, marks, inv := contents[m], MarksAt(contents, entries, m), ToEdits(EraseMarks(contents, entries, m));
    FencedIsMarked(contents, entries, m);
    FitsOrdered(marks, 0, |s|);
    forall q | 0 <= q < |marks| ensures TakesBack(s, marks, q, inv[q]) {
      MarkNonEmpty(contents, id, entries, m, q);
    }
  }

  /** Erasing the markers gives every message back. */
  lemma ErasedIsOriginal(
      host: seq<Message>, contents: seq<string>, id: string, entries: seq<FenceEntry>, observed: seq<Observed>, erased: seq<string>)
    requires Installed(contents, id, entries) && AllExpected(contents, entries, observed)
    requires AllSubstituted(contents, WrapsOf(contents, entries), Contents(host))
    requires Erasable(host, entries, observed) && AllSubstituted(Contents(host), Erasures(entries, observed), erased)
    ensures erased == contents
  {
    forall m | 0 <= m < |contents| ensures erased[m] == contents[m] {
      ErasuresAreMarks(host, contents, id, entries, observed, m);
      EraseMarksInverse(contents, id, entries, m);
      FencedIsMarked(contents, entries, m);
      InverseRestores(contents[m], MarksAt(contents, entries, m), ToEdits(EraseMarks(contents, entries, m)));
    }
  }

  // ---- The reported spans ----

  lemma {:induction false} InverseGrowth(s: string, edits: seq<Edit>, inv: seq<Edit>, k: nat)
    requires Inverse(s, edits, inv) && k <= |edits|
    ensures Growth(inv[..k]) == -Growth(edits[..k])
  {
    if k == 0 {
      assert inv[..0] == [] && edits[..0] == [];
    } else {
      InverseGrowth(s, edits, inv, k - 1);
      GrowthNext(edits, k - 1);
      GrowthNext(inv, k - 1);
      assert TakesBack(s, edits, k - 1, inv[k - 1]);
    }
  }

  lemma MarkMoved(host: seq<Message>, contents: seq<string>, id: string, entries: seq<FenceEntry>, observed: seq<Observed>, m: int, q: nat)
    requires Installed(contents, id, entries) && AllExpected(contents, entries, observed) && 0 <= m < |contents|
    requires |host| == |contents| && Erasable(host, entries, observed)
    requires q < |MarksAt(contents, entries, m)|
    ensures var marks := MarksAt(contents, entries, m);
      Moved(Erasures(entries, observed), m, Landing(marks, q)) == marks[q].start
  {
    var erase, marks := EraseMarks(contents, entries, m), MarksAt(contents, entries, m);
    ErasuresAreMarks(host, contents, id, entries, observed, m);
    EraseMarksSorted(contents, id, entries, m);
    EraseMarksInverse(contents, id, entries, m);
    GainIsGrowth(erase, q);
    InverseGrowth(contents[m], marks, ToEdits(erase), q);
    GainIsShift(Contents(host), Erasures(entries, observed), m, Landing(marks, q));
  }

  lemma BodyEndMoved(host: seq<Message>, contents: seq<string>, id: string, entries: seq<FenceEntry>, observed: seq<Observed>, i: nat)
    requires Installed(contents, id, entries) && AllExpected(contents, entries, observed) && i < |entries|
    requires |host| == |contents| && Erasable(host, entries, observed)
    ensures observed[i].message == entries[i].message
    ensures observed[i].bodyEnd - observed[i].bodyStart == entries[i].end - entries[i].start
    ensures Moved(Erasures(entries, observed), entries[i].message, observed[i].bodyEnd) == entries[i].end
  {
    assert InPlace(contents, entries[i]);
    RankMarks(contents, entries, i);
    MarkMoved(host, contents, id, entries, observed, entries[i].message, 2 * Rank(contents, entries, i) + 1);
    ExpectedBody(contents, entries, i);
  }

  lemma BodyKeepsLength(host: seq<Message>, entries: seq<FenceEntry>, observed: seq<Observed>, i: nat)
    requires Erasable(host, entries, observed) && i < |entries|
    ensures BodySpan(entries, observed, i).1 - BodySpan(entries, observed, i).0 == observed[i].bodyEnd - observed[i].bodyStart
  {
    var o := observed[i];
    SeenInside(host, entries[i], o);
    BodiesClear(host, entries, observed, i);
    ClearSliceMoved(Contents(host), Erasures(entries, observed), o.message, o.bodyStart, o.bodyEnd);
  }

  /** Each source is reported at the span it was fenced at. */
  lemma BodySpanIsOriginal(host: seq<Message>, contents: seq<string>, id: string, entries: seq<FenceEntry>, observed: seq<Observed>, i: nat)
    requires Installed(contents, id, entries) && AllExpected(contents, entries, observed) && i < |entries|
    requires |host| == |contents| && Erasable(host, entries, observed)
    ensures BodySpan(entries, observed, i) == (entries[i].start, entries[i].end)
  {
    hide InOrder, Landing, Shift, Erasures, Erasable, Installed;
    BodyEndMoved(host, contents, id, entries, observed, i);
    BodyKeepsLength(host, entries, observed, i);
  }

  // ---- When restoring succeeds ----

  ghost predicate SameSpeakers(host: seq<Message>, entries: seq<FenceEntry>) {
    forall i :: 0 <= i < |entries| ==> SameSpeaker(host, entries[i])
  }

  ghost predicate StandsBefore(a: FenceEntry, b: FenceEntry) {
    a.message < b.message || (a.message == b.message && a.start < b.start)
  }

  /** The internal order of the sources is the one they stand in, with no order used twice. */
  ghost predicate StandInOrder(entries: seq<FenceEntry>) {
    forall i, j :: 0 <= i < |entries| && 0 <= j < |entries| && StandsBefore(entries[i], entries[j]) ==>
      entries[i].order < entries[j].order
  }

  lemma StandDistinct(contents: seq<string>, entries: seq<FenceEntry>)
    requires AllInPlace(contents, entries) && Disjoint(WrapsOf(contents, entries)) && StandInOrder(entries)
    ensures DistinctOrders(entries)
  {
    forall i, j | 0 <= i < j < |entries| ensures entries[i].order != entries[j].order {
      StandApart(contents, entries, i, j);
    }
  }

  lemma StandApart(contents: seq<string>, entries: seq<FenceEntry>, i: nat, j: nat)
    requires AllInPlace(contents, entries) && Disjoint(WrapsOf(contents, entries)) && i < j < |entries|
    ensures StandsBefore(entries[i], entries[j]) || StandsBefore(entries[j], entries[i])
  {
    var wraps := WrapsOf(contents, entries);
    assert Apart(wraps[i], wraps[j]);
    assert InPlace(contents, entries[i]) && InPlace(contents, entries[j]);
  }

  ghost predicate OriginalSpans(entries: seq<FenceEntry>, spans: seq<(int, int)>) {
    |spans| == |entries| && forall i :: 0 <= i < |spans| ==> spans[i] == (entries[i].start, entries[i].end)
  }

  /** Markers not in the original messages are not in the restored ones either. */
  lemma OriginalIsClean(contents: seq<string>, id: string, entries: seq<FenceEntry>, observed: seq<Observed>)
    requires Installed(contents, id, entries) && AllExpected(contents, entries, observed)
    ensures AllGone(contents, entries, observed, |observed|)
  {
    forall i | 0 <= i < |observed| ensures MarkersGone(contents, entries[i], observed[i]) {
      var e := entries[i];
      assert InPlace(contents, e) && MarkersAbsent(contents, e);
      forall k: int ensures !OccursAt(contents[e.message], e.startMarker, k) && !OccursAt(contents[e.message], e.endMarker, k) {
        AbsentFrom(contents, e.startMarker, e.message, k);
        AbsentFrom(contents, e.endMarker, e.message, k);
      }
    }
  }

  lemma OriginalInRange(contents: seq<string>, entries: seq<FenceEntry>, observed: seq<Observed>, spans: seq<(int, int)>)
    requires AllInPlace(contents, entries) && Disjoint(WrapsOf(contents, entries)) && AllExpected(contents, entries, observed)
    requires OriginalSpans(entries, spans)
    ensures AllInRange(contents, observed, spans)
  {
    forall i | 0 <= i < |spans| ensures InRange(contents, observed[i], spans[i]) {
      assert InPlace(contents, entries[i]);
    }
  }

  /** The overrides stand where the entries did, with their orders. */
  ghost predicate StandAs(overrides: seq<Override>, entries: seq<FenceEntry>) {
    && |overrides| == |entries|
    && forall i :: 0 <= i < |entries| ==>
         overrides[i].provider == entries[i].message && overrides[i].start == entries[i].start && overrides[i].order == entries[i].order
  }

  lemma OverridesStand(contents: seq<string>, lease: Lease, observed: seq<Observed>, spans: seq<(int, int)>)
    requires AllInPlace(contents, lease.entries) && Disjoint(WrapsOf(contents, lease.entries))
    requires AllExpected(contents, lease.entries, observed) && OriginalSpans(lease.entries, spans)
    requires AllInRange(contents, observed, spans)
    ensures StandAs(OverridesOf(contents, lease, observed, spans), lease.entries)
  {
  }

  lemma StandingAgrees(contents: seq<string>, entries: seq<FenceEntry>, overrides: seq<Override>)
    requires AllInPlace(contents, entries) && Disjoint(WrapsOf(contents, entries))
    requires StandAs(overrides, entries) && StandInOrder(entries)
    ensures SameOrder(overrides)
  {
    forall i, j | 0 <= i < j < |overrides| ensures StandsBefore(entries[i], entries[j]) || StandsBefore(entries[j], entries[i]) {
      StandApart(contents, entries, i, j);
    }
    AgreeStrictlySameOrder(overrides);
  }

  lemma AgreeingStands(entries: seq<FenceEntry>, overrides: seq<Override>)
    requires StandAs(overrides, entries) && SameOrder(overrides) && DistinctOrders(entries)
    ensures StandInOrder(entries)
  {
    SameOrderAgrees(overrides);
    forall i, j | 0 <= i < |entries| && 0 <= j < |entries| && StandsBefore(entries[i], entries[j])
      ensures entries[i].order < entries[j].order
    {
      assert Less(ByCoordinate()(overrides[i]), ByCoordinate()(overrides[j]));
      assert overrides[i].order <= overrides[j].order;
    }
  }

  /** The sources come out in the order they were fenced in. */
  lemma OriginalOrder(contents: seq<string>, lease: Lease, observed: seq<Observed>, spans: seq<(int, int)>)
    requires AllInPlace(contents, lease.entries) && Disjoint(WrapsOf(contents, lease.entries))
    requires AllExpected(contents, lease.entries, observed) && OriginalSpans(lease.entries, spans)
    requires AllInRange(contents, observed, spans) && DistinctOrders(lease.entries)
    ensures SameOrder(OverridesOf(contents, lease, observed, spans)) <==> StandInOrder(lease.entries)
  {
    var overrides := OverridesOf(contents, lease, observed, spans);
    OverridesStand(contents, lease, observed, spans);
    if StandInOrder(lease.entries) { StandingAgrees(contents, lease.entries, overrides); }
    if SameOrder(overrides) { AgreeingStands(lease.entries, overrides); }
  }

  ghost function ExpectedAll(contents: seq<string>, entries: seq<FenceEntry>): (r: seq<Observed>)
    requires AllInPlace(contents, entries) && Disjoint(WrapsOf(contents, entries))
    ensures AllExpected(contents, entries, r)
  {
    seq(|entries|, i requires 0 <= i < |entries| => Expected(contents, entries, i))
  }

  lemma FenceIsInstalled(original: seq<Message>, host: seq<Message>, lease: Lease)
    requires FenceFor(original, host, lease)
    ensures Installed(Contents(original), lease.id, lease.entries) && FenceRestore.Markers(lease.entries)
    ensures |host| == |original|
    ensures SameSpeakers(original, lease.entries) <==> SameSpeakers(host, lease.entries)
  {
    MarkersNonEmpty(lease.id, lease.entries);
    assert forall i :: 0 <= i < |lease.entries| ==>
      (SameSpeaker(original, lease.entries[i]) <==> SameSpeaker(host, lease.entries[i]));
  }

  lemma AllExpectedSeen(contents: seq<string>, id: string, entries: seq<FenceEntry>, host: seq<Message>)
    requires Installed(contents, id, entries) && DistinctOrders(entries) && FenceRestore.Markers(entries)
    requires AllSubstituted(contents, WrapsOf(contents, entries), Contents(host)) && SameSpeakers(host, entries)
    ensures AllSeen(host, entries, ExpectedAll(contents, entries))
    ensures Erasable(host, entries, ExpectedAll(contents, entries))
  {
    var observed := ExpectedAll(contents, entries);
    forall i | 0 <= i < |entries| ensures SeenAt(host, entries[i], observed[i]) {
      ExpectedSeen(contents, id, entries, host, i);
    }
    ExpectedDisjoint(contents, entries, observed);
    ErasuresFit(host, entries, observed);
    ErasuresDisjoint(host, entries, observed);
  }

  lemma ErasingGivesOriginal(host: seq<Message>, contents: seq<string>, id: string, entries: seq<FenceEntry>, observed: seq<Observed>)
    requires Installed(contents, id, entries) && AllExpected(contents, entries, observed)
    requires AllSubstituted(contents, WrapsOf(contents, entries), Contents(host)) && Erasable(host, entries, observed)
    ensures AllSubstituted(Contents(host), Erasures(entries, observed), contents)
  {
    var erased := seq(|host|, m requires 0 <= m < |host| => SubstituteAt(Contents(host), Erasures(entries, observed), m));
    ErasedIsOriginal(host, contents, id, entries, observed, erased);
  }

  ghost function SpansOfEntries(entries: seq<FenceEntry>): (r: seq<(int, int)>)
    ensures OriginalSpans(entries, r)
  {
    seq(|entries|, i requires 0 <= i < |entries| => (entries[i].start, entries[i].end))
  }

  lemma OriginalBodySpans(host: seq<Message>, contents: seq<string>, id: string, entries: seq<FenceEntry>, observed: seq<Observed>)
    requires Installed(contents, id, entries) && AllExpected(contents, entries, observed)
    requires |host| == |contents| && Erasable(host, entries, observed)
    ensures AreBodySpans(entries, observed, SpansOfEntries(entries))
  {
    forall i | 0 <= i < |entries| ensures SpansOfEntries(entries)[i] == BodySpan(entries, observed, i) {
      BodySpanIsOriginal(host, contents, id, entries, observed, i);
    }
  }

  /** What restoring an undisturbed lease gives. */
  ghost function UndisturbedOutcome(original: seq<Message>, lease: Lease): Outcome
    requires AllInPlace(Contents(original), lease.entries) && Disjoint(WrapsOf(Contents(original), lease.entries))
  {
    Outcome(ExpectedAll(Contents(original), lease.entries), Contents(original), SpansOfEntries(lease.entries))
  }

  lemma DistinctRestores(original: seq<Message>, host: seq<Message>, lease: Lease)
    requires FenceFor(original, host, lease)
    requires SameSpeakers(original, lease.entries) && DistinctOrders(lease.entries)
    ensures RestorableTo(host, lease, UndisturbedOutcome(original, lease)) <==> StandInOrder(lease.entries)
    ensures Restorable(host, lease) ==> RestorableTo(host, lease, UndisturbedOutcome(original, lease))
  {
    var contents, entries := Contents(original), lease.entries;
    var out := UndisturbedOutcome(original, lease);
    FenceIsInstalled(original, host, lease);
    AllExpectedSeen(contents, lease.id, entries, host);
    ErasingGivesOriginal(host, contents, lease.id, entries, out.observed);
    OriginalBodySpans(host, contents, lease.id, entries, out.observed);
    OriginalInRange(contents, entries, out.observed, out.spans);
    OriginalIsClean(contents, lease.id, entries, out.observed);
    OriginalOrder(contents, lease, out.observed, out.spans);
    forall other | RestorableTo(host, lease, other) ensures other == out {
      OutcomeUnique(host, lease, other, out);
    }
  }

  /** Two fences of the same order carry the same markers, so neither is found once. */
  lemma SameOrderSeenTwice(original: seq<Message>, host: seq<Message>, lease: Lease, i: nat, j: nat, o: Observed)
    requires FenceFor(original, host, lease) && i < |lease.entries| && j < |lease.entries| && i != j
    requires SeenAt(host, lease.entries[i], o)
    ensures lease.entries[i].order != lease.entries[j].order
  {
    var contents, entries := Contents(original), lease.entries;
    FenceIsInstalled(original, host, lease);
    if entries[i].order == entries[j].order {
      StartFound(contents, lease.id, entries, host, i);
      StartFound(contents, lease.id, entries, host, j);
      assert MarkedWith(lease.id, entries[i]) && MarkedWith(lease.id, entries[j]);
      StartsDiffer(contents, lease.id, entries, i, j);
    }
  }

  lemma StartFound(contents: seq<string>, id: string, entries: seq<FenceEntry>, host: seq<Message>, i: nat)
    requires Installed(contents, id, entries) && i < |entries|
    requires AllSubstituted(contents, WrapsOf(contents, entries), Contents(host))
    ensures var o := Expected(contents, entries, i);
      o.message == entries[i].message && FoundAt(Contents(host), entries[i].startMarker, Occurrence(o.message, o.markerStart))
  {
    assert InPlace(contents, entries[i]);
    RankMarks(contents, entries, i);
    MarkLands(contents, entries, Contents(host), entries[i].message, 2 * Rank(contents, entries, i));
  }

  lemma StartsDiffer(contents: seq<string>, id: string, entries: seq<FenceEntry>, i: nat, j: nat)
    requires Installed(contents, id, entries) && i < |entries| && j < |entries| && i != j
    requires entries[i].message == entries[j].message
    ensures Expected(contents, entries, i).markerStart != Expected(contents, entries, j).markerStart
  {
    RanksDiffer(contents, entries, i, j);
    FenceLong(contents, id, entries, i);
    FenceLong(contents, id, entries, j);
    if Rank(contents, entries, i) < Rank(contents, entries, j) {
      ExpectedApart(contents, entries, i, j);
    } else {
      ExpectedApart(contents, entries, j, i);
    }
  }

  lemma FenceLong(contents: seq<string>, id: string, entries: seq<FenceEntry>, i: nat)
    requires Installed(contents, id, entries) && i < |entries|
    ensures Expected(contents, entries, i).markerStart < Expected(contents, entries, i).markerEnd
  {
    assert MarkedWith(id, entries[i]) && InPlace(contents, entries[i]);
    ExpectedBody(contents, entries, i);
  }

  lemma SeenSpeaker(original: seq<Message>, host: seq<Message>, lease: Lease, i: nat, o: Observed)
    requires FenceFor(original, host, lease) && i < |lease.entries| && SeenAt(host, lease.entries[i], o)
    ensures SameSpeaker(original, lease.entries[i])
  {
    FenceIsInstalled(original, host, lease);
    StartFound(Contents(original), lease.id, lease.entries, host, i);
    assert InPlace(Contents(original), lease.entries[i]);
  }

  lemma RestoringNeeds(original: seq<Message>, host: seq<Message>, lease: Lease, out: Outcome)
    requires FenceFor(original, host, lease) && RestorableTo(host, lease, out)
    ensures SameSpeakers(original, lease.entries) && DistinctOrders(lease.entries)
  {
    forall i | 0 <= i < |lease.entries| ensures SameSpeaker(original, lease.entries[i]) {
      SeenSpeaker(original, host, lease, i, out.observed[i]);
    }
    forall i, j | 0 <= i < j < |lease.entries| ensures lease.entries[i].order != lease.entries[j].order {
      SameOrderSeenTwice(original, host, lease, i, j, out.observed[i]);
    }
  }

  /** Restoring a prompt the host left alone succeeds if and only if every fenced source sits in a message of its own
      role and name, and the sources stand in their internal order, no order used twice. */
  lemma UndisturbedRestorable(original: seq<Message>, host: seq<Message>, lease: Lease)
    requires FenceFor(original, host, lease)
    ensures Restorable(host, lease) <==> SameSpeakers(original, lease.entries) && StandInOrder(lease.entries)
  {
    FenceIsInstalled(original, host, lease);
    if Restorable(host, lease) {
      var out :| RestorableTo(host, lease, out);
      RestoringNeeds(original, host, lease, out);
      DistinctRestores(original, host, lease);
    }
    if SameSpeakers(original, lease.entries) && StandInOrder(lease.entries) {
      StandDistinct(Contents(original), lease.entries);
      DistinctRestores(original, host, lease);
    }
  }

  lemma OnlyOutcome(original: seq<Message>, host: seq<Message>, lease: Lease, out: Outcome)
    requires FenceFor(original, host, lease) && RestorableTo(host, lease, out)
    ensures AllInPlace(Contents(original), lease.entries) && Disjoint(WrapsOf(Contents(original), lease.entries))
    ensures out == UndisturbedOutcome(original, lease)
  {
    RestoringNeeds(original, host, lease, out);
    DistinctRestores(original, host, lease);
    OutcomeUnique(host, lease, out, UndisturbedOutcome(original, lease));
  }

  lemma ContentsPutBack(original: seq<Message>, host: seq<Message>)
    requires |host| == |original| && host == WithContents(original, Contents(host))
    ensures WithContents(host, Contents(original)) == original
  {
  }

  /** It then gives back the original messages, and reports every source at its original span. */
  lemma UndisturbedIsOriginal(original: seq<Message>, host: seq<Message>, lease: Lease, out: Outcome)
    requires FenceFor(original, host, lease) && RestorableTo(host, lease, out)
    ensures |host| == |original| && out.contents == Contents(original) && WithContents(host, Contents(original)) == original
    ensures OriginalSpans(lease.entries, out.spans)
    ensures forall i :: 0 <= i < |lease.entries| ==> out.observed[i].message == lease.entries[i].message
  {
    hide RestorableTo, AllInPlace, Disjoint, AllSubstituted;
    OnlyOutcome(original, host, lease, out);
    ContentsPutBack(original, host);
  }
}
