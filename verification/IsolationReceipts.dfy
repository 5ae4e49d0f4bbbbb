/** Where the receipts of a restored isolation lease point: exactly at their sources when, and only when,
    what is restored later leaves the text to their left as long as it was. */
module IsolationReceipts {
  import opened TextEdits
  import opened TextSearch
  import opened Ordering
  import opened MessageSpans
  import opened PlacedMarkers
  import opened PromptEntries
  import opened Brackets
  import opened SourceIsolation
  import opened SpanShifts

  lemma PositionIsShifted(contents: seq<string>, spans: seq<Span>, s: Span)
    requires InBounds(contents, spans) && Disjoint(spans) && s in spans
    ensures MarkerPosition(spans, s) == Occurrence(s.message, s.start + Shift(spans, s.message, s.start))
  {
    InOrderElement(spans, s.message, s);
    var k :| 0 <= k < |InOrder(spans, s.message)| && InOrder(spans, s.message)[k] == s;
    OrderIndex(contents, spans, s, k);
    InOrderIncreasing(contents, spans, s.message);
    GainIsGrowth(InOrder(spans, s.message), k);
    GainIsShift(contents, spans, s.message, s.start);
  }

  /** How far the entries restored after entry `t` still move the text it stands in. */
  ghost function LaterShift(lease: Lease, t: nat): int
    requires t < |lease.entries|
  {
    Shift(SpansOf(lease.entries[t + 1..]), lease.entries[t].message, lease.entries[t].start)
  }

  lemma SpansSuffix(contents: seq<string>, entries: seq<LeaseEntry>, t: nat)
    requires t <= |entries| && InBounds(contents, SpansOf(entries)) && Disjoint(SpansOf(entries))
    ensures InBounds(contents, SpansOf(entries[t..])) && Disjoint(SpansOf(entries[t..]))
  {
    var spans, all := SpansOf(entries[t..]), SpansOf(entries);
    assert forall i :: 0 <= i < |spans| ==> spans[i] == all[t + i];
  }

  lemma ReceiptPosition(contents: seq<string>, lease: Lease, t: nat)
    requires t < |lease.entries| && InBounds(contents, SpansOf(lease.entries)) && Disjoint(SpansOf(lease.entries))
    ensures RestoredAt(lease.entries, t) == Occurrence(lease.entries[t].message, lease.entries[t].start + LaterShift(lease, t))
  {
    SpansSuffix(contents, lease.entries, t);
    var spans := SpansOf(lease.entries[t..]);
    assert spans[0] == SpanOf(lease.entries[t]) && spans[1..] == SpansOf(lease.entries[t + 1..]);
    PositionIsShifted(contents, spans, spans[0]);
  }

  /** A receipt slices the restored message to its source if and only if nothing restored later shifts it. */
  lemma ReceiptSlicesIff(original: seq<Message>, isolated: seq<Message>, lease: Lease, receipts: seq<Receipt>, t: nat)
    requires LeaseFor(original, isolated, lease) && Receipts(lease.entries, receipts) && t < |lease.entries|
    ensures receipts[t].provider == lease.entries[t].message
    ensures receipts[t].end == receipts[t].start + |lease.entries[t].source.content|
    ensures OccursAt(original[receipts[t].provider].content, lease.entries[t].source.content, receipts[t].start)
       <==> LaterShift(lease, t) == 0
  {
    hide Shift, RestoredAt, Placeholder;
    var e := lease.entries[t];
    ReceiptPosition(Contents(original), lease, t);
    assert Located(Contents(original), lease.id, e);
    assert FoundAt(Contents(original), e.source.content, Occurrence(e.message, e.start));
    if OccursAt(original[e.message].content, e.source.content, receipts[t].start) {
      assert FoundAt(Contents(original), e.source.content, Occurrence(e.message, receipts[t].start));
    }
  }

  ghost predicate ListedLeftToRight(entries: seq<LeaseEntry>) {
    forall i, j :: 0 <= i < j < |entries| && entries[i].message == entries[j].message ==> entries[i].start < entries[j].start
  }

  lemma {:induction false} NothingToTheLeft(spans: seq<Span>, m: int, pos: int)
    requires forall i :: 0 <= i < |spans| && spans[i].message == m ==> pos <= spans[i].start
    ensures Shift(spans, m, pos) == 0
  {
    if spans != [] { NothingToTheLeft(spans[1..], m, pos); }
  }

  lemma NoLaterShift(lease: Lease, t: nat)
    requires ListedLeftToRight(lease.entries) && t < |lease.entries|
    ensures LaterShift(lease, t) == 0
  {
    var e, later := lease.entries[t], lease.entries[t + 1..];
    forall i | 0 <= i < |later| && later[i].message == e.message ensures e.start <= later[i].start {
      assert later[i] == lease.entries[t + 1 + i];
    }
    NothingToTheLeft(SpansOf(later), e.message, e.start);
  }

  /** Sources listed left to right in each message all get receipts that slice to them. */
  lemma ReceiptsLeftToRight(original: seq<Message>, isolated: seq<Message>, lease: Lease, receipts: seq<Receipt>, t: nat)
    requires LeaseFor(original, isolated, lease) && Receipts(lease.entries, receipts) && ListedLeftToRight(lease.entries)
    requires t < |receipts|
    ensures OccursAt(original[lease.entries[t].message].content, lease.entries[t].source.content, receipts[t].start)
    ensures receipts[t].start == lease.entries[t].start && receipts[t].end == lease.entries[t].end
  {
    NoLaterShift(lease, t);
    ReceiptPosition(Contents(original), lease, t);
    ReceiptSlicesIff(original, isolated, lease, receipts, t);
    assert Located(Contents(original), lease.id, lease.entries[t]);
  }

  // ---- Sources listed right to left ----

  const DriftWorking := [Message("user", None, "ab")]
  const DriftInternal := [Message("system", None, "b"), Message("system", None, "a")]

  ghost function DriftEntry(order: nat): Entry
    requires order < 2
  {
    var d := Digest(DriftInternal[order]);
    Entry(order, Named("scenario"), "system", None, d, "raw_scenario", RemoveAbsorbed, Some(Grant("g", d)), None, None, None, false)
  }

  lemma DriftSources()
    ensures Authorized([DriftEntry(0), DriftEntry(1)]) == [DriftEntry(0), DriftEntry(1)]
    ensures AllIsolatable([DriftEntry(0), DriftEntry(1)], DriftInternal)
    ensures var s := SourcesOf([DriftEntry(0), DriftEntry(1)], DriftInternal);
      |s| == 2 && s[0].content == "b" && s[1].content == "a"
  {
    var a, b := DriftEntry(0), DriftEntry(1);
    assert [a, b][1..] == [b] && [b][1..] == [];
    assert Authorized([b]) == [b];
  }

  lemma DriftOccurrences(contents: seq<string>, p: string)
    requires contents == ["ab"]
    ensures OnlyAt(contents, "a", Occurrence(0, 0)) && OnlyAt(contents, "b", Occurrence(0, 1))
    ensures |p| > 2 ==> Absent(contents, p)
  {
    assert "ab"[0..1] == "a" && "ab"[1..2] == "b";
  }

  /** With "ab" in one message and the sources "b" (order 0) and "a" (order 1) a lease is granted;
      after restoring it, the receipt of "b" starts past the end of "ab". */
  lemma ReceiptDriftExample(nonce: string)
    requires SafeId(nonce) != ""
    ensures CanIsolate(DriftWorking, DriftInternal, [DriftEntry(0), DriftEntry(1)], nonce)
  {
    DriftSources();
    var contents := Contents(DriftWorking);
    var sources := SourcesOf([DriftEntry(0), DriftEntry(1)], DriftInternal);
    assert contents == ["ab"];
    DriftOccurrences(contents, Placeholder(SafeId(nonce), sources[0].order));
    DriftOccurrences(contents, Placeholder(SafeId(nonce), sources[1].order));
    assert Findable(contents, SafeId(nonce), sources[0]) && Findable(contents, SafeId(nonce), sources[1]);
    assert SourcesApart(contents, sources[0], sources[1]);
  }

  lemma DriftPlaces(id: string, e: LeaseEntry)
    requires Located(Contents(DriftWorking), id, e) && (e.source.content == "a" || e.source.content == "b")
    ensures e.message == 0 && e.start == (if e.source.content == "a" then 0 else 1) && e.end == e.start + 1
    ensures |e.placeholder| > 2
  {
    var contents := Contents(DriftWorking);
    assert contents == ["ab"];
    DriftOccurrences(contents, "");
    assert FoundAt(contents, e.source.content, Occurrence(e.message, e.start));
  }

  lemma ReceiptDrift(isolated: seq<Message>, lease: Lease, receipts: seq<Receipt>)
    requires LeaseFor(DriftWorking, isolated, lease) && Receipts(lease.entries, receipts)
    requires AllIsolatable([DriftEntry(0), DriftEntry(1)], DriftInternal)
    requires Leases(lease, SourcesOf([DriftEntry(0), DriftEntry(1)], DriftInternal))
    ensures receipts[0].start > |DriftWorking[0].content|
  {
    DriftSources();
    var e0, e1 := lease.entries[0], lease.entries[1];
    DriftPlaces(lease.id, e0);
    DriftPlaces(lease.id, e1);
    ReceiptPosition(Contents(DriftWorking), lease, 0);
    DriftShift(lease);
  }

  lemma DriftShift(lease: Lease)
    requires |lease.entries| == 2
    requires lease.entries[0].message == lease.entries[1].message && lease.entries[1].start < lease.entries[0].start
    ensures LaterShift(lease, 0) == Gain(SpanOf(lease.entries[1]))
  {
    var e0, e1 := lease.entries[0], SpanOf(lease.entries[1]);
    assert SpansOf(lease.entries[1..]) == [e1] && [e1][1..] == [];
    assert Shift([e1][1..], e0.message, e0.start) == 0;
    assert Shift([e1], e0.message, e0.start) == Gain(e1);
  }
}
