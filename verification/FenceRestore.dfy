/** Taking the fences out of whatever the host made of the prompt (runtime.js, restoreHostTransformFenceLease). */
module FenceRestore {
  import opened TextEdits
  import opened TextSearch
  import opened Ordering
  import opened MessageSpans
  import opened PlacedMarkers
  import opened PromptEntries
  import opened SpanShifts
  import opened FenceLease

  /** Where the two markers of one entry stand in the host's output. */
  datatype Observed = Observed(message: int, markerStart: int, bodyStart: int, bodyEnd: int, markerEnd: int)

  datatype Override = Override(
    runId: string, identifier: Identifier, sourceLabel: string, order: nat, originalDigest: Digest,
    provider: int, start: int, end: int, transformedDigest: Digest)

  datatype Restored = Restored(messages: seq<Message>, overrides: seq<Override>)

  /** Both markers occur exactly once, in one message, in this order, around a non-empty body. */
  ghost predicate SeenAt(host: seq<Message>, e: FenceEntry, o: Observed) {
    && OnlyAt(Contents(host), e.startMarker, Occurrence(o.message, o.markerStart))
    && OnlyAt(Contents(host), e.endMarker, Occurrence(o.message, o.bodyEnd))
    && o.bodyStart == o.markerStart + |e.startMarker| && o.bodyStart < o.bodyEnd
    && o.markerEnd == o.bodyEnd + |e.endMarker|
    && host[o.message].role == e.role && host[o.message].name == e.name
  }

  ghost predicate AllSeen(host: seq<Message>, entries: seq<FenceEntry>, observed: seq<Observed>) {
    && |observed| == |entries|
    && forall i :: 0 <= i < |entries| ==> SeenAt(host, entries[i], observed[i])
  }

  ghost predicate Markers(entries: seq<FenceEntry>) {
    forall i :: 0 <= i < |entries| ==> entries[i].startMarker != "" && entries[i].endMarker != ""
  }

  /** The whole fence, markers included. */
  function Extent(o: Observed): Span {
    Span(o.message, o.markerStart, o.markerEnd, "", "")
  }

  function Extents(observed: seq<Observed>): (r: seq<Span>)
    ensures |r| == |observed|
    ensures forall i :: 0 <= i < |r| ==> r[i] == Extent(observed[i])
  {
    seq(|observed|, i requires 0 <= i < |observed| => Extent(observed[i]))
  }

  function StartErasure(e: FenceEntry, o: Observed): Span {
    Span(o.message, o.markerStart, o.bodyStart, e.startMarker, "")
  }

  function EndErasure(e: FenceEntry, o: Observed): Span {
    Span(o.message, o.bodyEnd, o.markerEnd, e.endMarker, "")
  }

  /** The two markers of each entry, to be erased. */
  function Erasures(entries: seq<FenceEntry>, observed: seq<Observed>): (r: seq<Span>)
    requires |observed| == |entries|
    ensures |r| == 2 * |entries|
    ensures forall k :: 0 <= k < |r| ==>
      r[k] == if k % 2 == 0 then StartErasure(entries[k / 2], observed[k / 2]) else EndErasure(entries[k / 2], observed[k / 2])
  {
    seq(2 * |entries|, k requires 0 <= k < 2 * |entries| =>
      if k % 2 == 0 then StartErasure(entries[k / 2], observed[k / 2]) else EndErasure(entries[k / 2], observed[k / 2]))
  }

  lemma SeenInside(host: seq<Message>, e: FenceEntry, o: Observed)
    requires SeenAt(host, e, o) && e.startMarker != "" && e.endMarker != ""
    ensures 0 <= o.message < |host|
    ensures 0 <= o.markerStart < o.bodyStart < o.bodyEnd < o.markerEnd <= |host[o.message].content|
    ensures host[o.message].content[o.markerStart..o.bodyStart] == e.startMarker
    ensures host[o.message].content[o.bodyEnd..o.markerEnd] == e.endMarker
  {
    assert FoundAt(Contents(host), e.startMarker, Occurrence(o.message, o.markerStart));
    assert FoundAt(Contents(host), e.endMarker, Occurrence(o.message, o.bodyEnd));
  }

  lemma ExtentsInBounds(host: seq<Message>, entries: seq<FenceEntry>, observed: seq<Observed>)
    requires AllSeen(host, entries, observed) && Markers(entries)
    ensures InBounds(Contents(host), Extents(observed))
  {
    forall i | 0 <= i < |observed|
      ensures 0 <= observed[i].message < |host| && 0 <= observed[i].markerStart < observed[i].markerEnd <= |host[observed[i].message].content|
    {
      SeenInside(host, entries[i], observed[i]);
    }
  }

  lemma ErasuresFit(host: seq<Message>, entries: seq<FenceEntry>, observed: seq<Observed>)
    requires AllSeen(host, entries, observed) && Markers(entries)
    ensures InBounds(Contents(host), Erasures(entries, observed))
    ensures Matching(Contents(host), Erasures(entries, observed))
  {
    var erasures := Erasures(entries, observed);
    forall k | 0 <= k < |erasures|
      ensures 0 <= erasures[k].message < |host|
      ensures 0 <= erasures[k].start < erasures[k].end <= |host[erasures[k].message].content|
      ensures Holds(host[erasures[k].message].content, erasures[k])
    {
      SeenInside(host, entries[k / 2], observed[k / 2]);
    }
  }

  /** Disjoint fences have disjoint markers. */
  lemma ErasuresDisjoint(host: seq<Message>, entries: seq<FenceEntry>, observed: seq<Observed>)
    requires AllSeen(host, entries, observed) && Markers(entries) && Disjoint(Extents(observed))
    ensures Disjoint(Erasures(entries, observed))
  {
    var erasures := Erasures(entries, observed);
    forall k, l | 0 <= k < l < |erasures| ensures Apart(erasures[k], erasures[l]) {
      var i, j := k / 2, l / 2;
      assert k == 2 * i + k % 2 && l == 2 * j + l % 2;
      SeenInside(host, entries[i], observed[i]);
      SeenInside(host, entries[j], observed[j]);
      if i < j { assert Apart(Extents(observed)[i], Extents(observed)[j]); }
    }
  }

  /** No marker reaches into a body, or across its ends. */
  lemma BodiesClear(host: seq<Message>, entries: seq<FenceEntry>, observed: seq<Observed>, i: nat)
    requires AllSeen(host, entries, observed) && Markers(entries) && Disjoint(Extents(observed)) && i < |entries|
    ensures forall k :: 0 <= k < |Erasures(entries, observed)| && Erasures(entries, observed)[k].message == observed[i].message ==>
      Erasures(entries, observed)[k].end <= observed[i].bodyStart || observed[i].bodyEnd <= Erasures(entries, observed)[k].start
  {
    var erasures := Erasures(entries, observed);
    forall k | 0 <= k < |erasures| && erasures[k].message == observed[i].message
      ensures erasures[k].end <= observed[i].bodyStart || observed[i].bodyEnd <= erasures[k].start
    {
      var j := k / 2;
      SeenInside(host, entries[i], observed[i]);
      SeenInside(host, entries[j], observed[j]);
      if i < j { assert Apart(Extents(observed)[i], Extents(observed)[j]); }
      if j < i { assert Apart(Extents(observed)[j], Extents(observed)[i]); }
    }
  }

  lemma {:induction false} SameShift(spans: seq<Span>, m: int, a: int, b: int)
    requires a <= b
    requires forall k :: 0 <= k < |spans| && spans[k].message == m && spans[k].start < spans[k].end ==> spans[k].end <= a || b <= spans[k].start
    requires forall k :: 0 <= k < |spans| ==> spans[k].start < spans[k].end
    ensures Shift(spans, m, a) == Shift(spans, m, b)
  {
    if spans != [] { SameShift(spans[1..], m, a, b); }
  }

  // ---- Where a body ends up ----

  /** The lengths of the markers standing before `pos`. */
  function RemovedBefore(markers: seq<Span>, pos: int): int {
    if markers == [] then 0
    else (if markers[0].start < pos then |markers[0].expected| else 0) + RemovedBefore(markers[1..], pos)
  }

  lemma {:induction false} RemovedIsGain(markers: seq<Span>, pos: int)
    requires Increasing(markers)
    requires forall i :: 0 <= i < |markers| ==> markers[i].text == "" && |markers[i].expected| == markers[i].end - markers[i].start
    ensures RemovedBefore(markers, pos) == -GainBefore(markers, pos)
  {
    if markers != [] {
      RemovedIsGain(markers[1..], pos);
      if markers[0].start >= pos && markers[1..] != [] {
        assert markers[1].start >= pos;
      }
    }
  }

  lemma RemovedIsShift(host: seq<Message>, entries: seq<FenceEntry>, observed: seq<Observed>, m: int, pos: int)
    requires AllSeen(host, entries, observed) && Markers(entries) && Disjoint(Extents(observed)) && 0 <= m < |host|
    ensures pos - RemovedBefore(InOrder(Erasures(entries, observed), m), pos) == Moved(Erasures(entries, observed), m, pos)
  {
    var erasures := Erasures(entries, observed);
    ErasuresFit(host, entries, observed);
    ErasuresDisjoint(host, entries, observed);
    InOrderIncreasing(Contents(host), erasures, m);
    var markers := InOrder(erasures, m);
    forall i | 0 <= i < |markers| ensures markers[i].text == "" && |markers[i].expected| == markers[i].end - markers[i].start {
      InOrderElement(erasures, m, markers[i]);
      var k :| 0 <= k < |erasures| && erasures[k] == markers[i];
      assert Holds(Contents(host)[erasures[k].message], erasures[k]);
    }
    RemovedIsGain(markers, pos);
    GainIsShift(Contents(host), erasures, m, pos);
  }

  /** The span slices the new message to exactly what stood between the two markers. */
  ghost predicate SpanCarried(host: seq<Message>, result: seq<string>, o: Observed, span: (int, int)) {
    && 0 <= o.message < |host| && 0 <= o.bodyStart < o.bodyEnd <= |host[o.message].content|
    && InRange(result, o, span)
    && result[o.message][span.0..span.1] == host[o.message].content[o.bodyStart..o.bodyEnd]
  }

  ghost predicate InRange(result: seq<string>, o: Observed, span: (int, int)) {
    0 <= o.message < |result| && 0 <= span.0 < span.1 <= |result[o.message]|
  }

  ghost function BodySpan(entries: seq<FenceEntry>, observed: seq<Observed>, i: nat): (int, int)
    requires |observed| == |entries| && i < |observed|
  {
    var erasures, o := Erasures(entries, observed), observed[i];
    (Moved(erasures, o.message, o.bodyStart), Moved(erasures, o.message, o.bodyEnd))
  }

  lemma BodyCarried(host: seq<Message>, entries: seq<FenceEntry>, observed: seq<Observed>, result: seq<string>, i: nat)
    requires AllSeen(host, entries, observed) && Markers(entries) && Disjoint(Extents(observed)) && i < |entries|
    requires InBounds(Contents(host), Erasures(entries, observed)) && Disjoint(Erasures(entries, observed))
    requires AllSubstituted(Contents(host), Erasures(entries, observed), result)
    ensures SpanCarried(host, result, observed[i], BodySpan(entries, observed, i))
  {
    SeenInside(host, entries[i], observed[i]);
    BodiesClear(host, entries, observed, i);
    ClearSliceMoved(Contents(host), Erasures(entries, observed), observed[i].message, observed[i].bodyStart, observed[i].bodyEnd);
  }

  lemma ClearSliceMoved(contents: seq<string>, spans: seq<Span>, m: int, a: int, b: int)
    requires InBounds(contents, spans) && Disjoint(spans) && 0 <= m < |contents|
    requires 0 <= a <= b <= |contents[m]|
    requires forall k :: 0 <= k < |spans| && spans[k].message == m ==> spans[k].end <= a || b <= spans[k].start
    ensures Moved(spans, m, b) - Moved(spans, m, a) == b - a
    ensures 0 <= Moved(spans, m, a) && Moved(spans, m, b) <= |SubstituteAt(contents, spans, m)|
    ensures SubstituteAt(contents, spans, m)[Moved(spans, m, a)..Moved(spans, m, b)] == contents[m][a..b]
  {
    assert Uncrossed(spans, m, a);
    SliceMoved(contents, spans, m, a, b);
    SameShift(spans, m, a, b);
  }

  // ---- The order of the sources ----

  function ByOrder(): Override -> Key {
    (o: Override) => (o.order, 0)
  }

  function ByCoordinate(): Override -> Key {
    (o: Override) => (o.provider, o.start)
  }

  function Orders(overrides: seq<Override>): (r: seq<int>)
    ensures |r| == |overrides|
    ensures forall i :: 0 <= i < |r| ==> r[i] == overrides[i].order
  {
    seq(|overrides|, i requires 0 <= i < |overrides| => overrides[i].order)
  }

  /** Sources further on in the provider prompt do not come earlier in the internal one. */
  ghost predicate OrdersAgree(overrides: seq<Override>) {
    forall i, j :: 0 <= i < |overrides| && 0 <= j < |overrides| ==>
      Less(ByCoordinate()(overrides[i]), ByCoordinate()(overrides[j])) ==> overrides[i].order <= overrides[j].order
  }

  ghost predicate OrdersAgreeStrictly(overrides: seq<Override>) {
    forall i, j :: 0 <= i < j < |overrides| ==>
      && ByCoordinate()(overrides[i]) != ByCoordinate()(overrides[j])
      && (Less(ByCoordinate()(overrides[i]), ByCoordinate()(overrides[j])) <==> overrides[i].order < overrides[j].order)
      && overrides[i].order != overrides[j].order
  }

  predicate SameOrder(overrides: seq<Override>) {
    Orders(Sort(overrides, ByOrder())) == Orders(Sort(overrides, ByCoordinate()))
  }

  lemma Ranks(xs: seq<Override>, key: Override -> Key, x: Override, y: Override) returns (p: nat, q: nat)
    requires x in xs && y in xs && Less(key(x), key(y))
    ensures p < q < |Sort(xs, key)| && Sort(xs, key)[p] == x && Sort(xs, key)[q] == y
  {
    SortSorted(xs, key);
    SortElement(xs, key, x);
    SortElement(xs, key, y);
    p :| 0 <= p < |Sort(xs, key)| && Sort(xs, key)[p] == x;
    q :| 0 <= q < |Sort(xs, key)| && Sort(xs, key)[q] == y;
  }

  lemma SameOrderAgrees(overrides: seq<Override>)
    requires SameOrder(overrides)
    ensures OrdersAgree(overrides)
  {
    forall i, j | 0 <= i < |overrides| && 0 <= j < |overrides| && Less(ByCoordinate()(overrides[i]), ByCoordinate()(overrides[j]))
      ensures overrides[i].order <= overrides[j].order
    {
      var p, q := Ranks(overrides, ByCoordinate(), overrides[i], overrides[j]);
      OrdersRise(overrides, p, q);
    }
  }

  lemma OrdersRise(overrides: seq<Override>, p: nat, q: nat)
    requires SameOrder(overrides) && p < q < |Sort(overrides, ByCoordinate())|
    ensures Sort(overrides, ByCoordinate())[p].order <= Sort(overrides, ByCoordinate())[q].order
  {
    var byOrder, byCoordinate := Sort(overrides, ByOrder()), Sort(overrides, ByCoordinate());
    SortSorted(overrides, ByOrder());
    SortLength(overrides, ByOrder());
    SortLength(overrides, ByCoordinate());
    assert Orders(byCoordinate)[p] == Orders(byOrder)[p] && Orders(byCoordinate)[q] == Orders(byOrder)[q];
    assert !Less(ByOrder()(byOrder[q]), ByOrder()(byOrder[p]));
  }

  lemma SortLength<T>(xs: seq<T>, key: T -> Key)
    ensures |Sort(xs, key)| == |xs|
  {
    assert |multiset(Sort(xs, key))| == |multiset(xs)|;
  }

  lemma AgreeStrictlySameOrder(overrides: seq<Override>)
    requires OrdersAgreeStrictly(overrides)
    ensures SameOrder(overrides)
  {
    var byOrder, byCoordinate := Sort(overrides, ByOrder()), Sort(overrides, ByCoordinate());
    SortStrict(overrides, ByOrder());
    SortStrict(overrides, ByCoordinate());
    forall p, q | 0 <= p < q < |byCoordinate| ensures Less(ByOrder()(byCoordinate[p]), ByOrder()(byCoordinate[q])) {
      SortElement(overrides, ByCoordinate(), byCoordinate[p]);
      SortElement(overrides, ByCoordinate(), byCoordinate[q]);
      var i :| 0 <= i < |overrides| && overrides[i] == byCoordinate[p];
      var j :| 0 <= j < |overrides| && overrides[j] == byCoordinate[q];
      assert Less(ByCoordinate()(byCoordinate[p]), ByCoordinate()(byCoordinate[q]));
      assert i != j;
    }
    forall x ensures x in byOrder <==> x in byCoordinate {
      SortElement(overrides, ByOrder(), x);
      SortElement(overrides, ByCoordinate(), x);
    }
    StrictlySortedUnique(byOrder, byCoordinate, ByOrder());
  }

  // ---- Restoring ----

  ghost predicate Seeable(host: seq<Message>, e: FenceEntry) {
    exists o :: SeenAt(host, e, o)
  }

  ghost predicate MarkerLost(host: seq<Message>, e: FenceEntry) {
    Absent(Contents(host), e.startMarker) || Absent(Contents(host), e.endMarker)
  }

  /** Each of the two markers occurs exactly once. */
  ghost predicate MarkersOnce(host: seq<Message>, e: FenceEntry) {
    && (exists o :: OnlyAt(Contents(host), e.startMarker, o))
    && (exists o :: OnlyAt(Contents(host), e.endMarker, o))
  }

  method ObserveFence(host: seq<Message>, e: FenceEntry) returns (r: Result<Observed, FenceError>)
    requires e.startMarker != "" && e.endMarker != ""
    ensures r.Success? ==> SeenAt(host, e, r.value)
    ensures r.Success? <==> Seeable(host, e)
    ensures r.Failure? ==> r.error in {MarkerMissing, MarkerAmbiguous, CoordinateDrift}
    ensures r == Failure(MarkerMissing) <==> MarkerLost(host, e)
    ensures r == Failure(MarkerAmbiguous) <==> !MarkerLost(host, e) && !MarkersOnce(host, e)
  {
    var starts := FindOccurrences(Contents(host), e.startMarker);
    var ends := FindOccurrences(Contents(host), e.endMarker);
    forall o | SeenAt(host, e, o)
      ensures starts == [Occurrence(o.message, o.markerStart)] && ends == [Occurrence(o.message, o.bodyEnd)]
    {
      OneOccurrence(Contents(host), e.startMarker, starts, Occurrence(o.message, o.markerStart));
      OneOccurrence(Contents(host), e.endMarker, ends, Occurrence(o.message, o.bodyEnd));
    }
    assert starts == [] <==> Absent(Contents(host), e.startMarker) by {
      if starts != [] { assert FoundAt(Contents(host), e.startMarker, starts[0]); }
    }
    assert ends == [] <==> Absent(Contents(host), e.endMarker) by {
      if ends != [] { assert FoundAt(Contents(host), e.endMarker, ends[0]); }
    }
    forall o | OnlyAt(Contents(host), e.startMarker, o) ensures starts == [o] { OneOccurrence(Contents(host), e.startMarker, starts, o); }
    forall o | OnlyAt(Contents(host), e.endMarker, o) ensures ends == [o] { OneOccurrence(Contents(host), e.endMarker, ends, o); }
    if |starts| != 1 || |ends| != 1 {
      return Failure(if |starts| == 0 || |ends| == 0 then MarkerMissing else MarkerAmbiguous);
    }
    OneOccurrence(Contents(host), e.startMarker, starts, starts[0]);
    OneOccurrence(Contents(host), e.endMarker, ends, ends[0]);
    assert OnlyAt(Contents(host), e.startMarker, starts[0]) && OnlyAt(Contents(host), e.endMarker, ends[0]);
    var message := starts[0].message;
    var bodyStart, bodyEnd := starts[0].start + |e.startMarker|, ends[0].start;
    if message != ends[0].message || bodyEnd <= bodyStart || host[message].role != e.role || host[message].name != e.name {
      return Failure(CoordinateDrift);
    }
    r := Success(Observed(message, starts[0].start, bodyStart, bodyEnd, bodyEnd + |e.endMarker|));
    assert SeenAt(host, e, r.value);
  }

  method ObserveFences(host: seq<Message>, entries: seq<FenceEntry>) returns (r: Result<seq<Observed>, FenceError>)
    requires Markers(entries)
    ensures r.Success? ==> AllSeen(host, entries, r.value)
    ensures r.Success? <==> forall i :: 0 <= i < |entries| ==> Seeable(host, entries[i])
    ensures r.Failure? ==> r.error in {MarkerMissing, MarkerAmbiguous, CoordinateDrift}
    ensures r == Failure(MarkerMissing) ==> exists i :: 0 <= i < |entries| && MarkerLost(host, entries[i])
    ensures r == Failure(MarkerAmbiguous) ==>
      exists i :: 0 <= i < |entries| && !MarkerLost(host, entries[i]) && !MarkersOnce(host, entries[i])
  {
    var observed: seq<Observed> := [];
    for i := 0 to |entries|
      invariant |observed| == i
      invariant forall k :: 0 <= k < i ==> SeenAt(host, entries[k], observed[k])
    {
      var o := ObserveFence(host, entries[i]);
      if o.Failure? { return Failure(o.error); }
      observed := observed + [o.value];
    }
    r := Success(observed);
  }

  /** The markers found in the host's output, fit to be erased. */
  ghost predicate Erasable(host: seq<Message>, entries: seq<FenceEntry>, observed: seq<Observed>) {
    && AllSeen(host, entries, observed) && Markers(entries) && Disjoint(Extents(observed))
    && InBounds(Contents(host), Erasures(entries, observed)) && Disjoint(Erasures(entries, observed))
    && Matching(Contents(host), Erasures(entries, observed))
  }

  /** The span of one body, computed from the lengths of the markers removed to its left. */
  method BodySpanOf(host: seq<Message>, entries: seq<FenceEntry>, observed: seq<Observed>, i: nat) returns (start: int, end: int)
    requires Erasable(host, entries, observed) && i < |entries|
    ensures (start, end) == BodySpan(entries, observed, i)
  {
    hide InOrder, RemovedBefore, Shift;
    var o := observed[i];
    SeenInside(host, entries[i], o);
    var markers := InOrder(Erasures(entries, observed), o.message);
    RemovedIsShift(host, entries, observed, o.message, o.bodyStart);
    RemovedIsShift(host, entries, observed, o.message, o.bodyEnd);
    start := o.bodyStart - RemovedBefore(markers, o.bodyStart);
    end := o.bodyEnd - RemovedBefore(markers, o.bodyEnd);
  }

  ghost predicate MarkersGone(result: seq<string>, e: FenceEntry, o: Observed) {
    0 <= o.message < |result| && !OccursAnywhere(result[o.message], e.startMarker) && !OccursAnywhere(result[o.message], e.endMarker)
  }

  ghost predicate AllGone(result: seq<string>, entries: seq<FenceEntry>, observed: seq<Observed>, n: nat) {
    n <= |entries| && n <= |observed| && forall i :: 0 <= i < n ==> MarkersGone(result, entries[i], observed[i])
  }

  ghost predicate OccursAnywhere(s: string, p: string) {
    exists i :: OccursAt(s, p, i)
  }

  ghost predicate AreBodySpans(entries: seq<FenceEntry>, observed: seq<Observed>, spans: seq<(int, int)>) {
    && |spans| == |entries| == |observed|
    && forall i :: 0 <= i < |spans| ==> spans[i] == BodySpan(entries, observed, i)
  }

  ghost predicate AllCarried(host: seq<Message>, result: seq<string>, observed: seq<Observed>, spans: seq<(int, int)>) {
    |spans| == |observed| && forall i :: 0 <= i < |spans| ==> SpanCarried(host, result, observed[i], spans[i])
  }

  ghost predicate SpansSoFar(host: seq<Message>, entries: seq<FenceEntry>, observed: seq<Observed>, result: seq<string>, spans: seq<(int, int)>) {
    && |spans| <= |entries| == |observed|
    && (forall k :: 0 <= k < |spans| ==> spans[k] == BodySpan(entries, observed, k))
    && (forall k :: 0 <= k < |spans| ==> SpanCarried(host, result, observed[k], spans[k]))
  }

  method NextSpan(host: seq<Message>, entries: seq<FenceEntry>, observed: seq<Observed>, ghost result: seq<string>, spans: seq<(int, int)>)
    returns (longer: seq<(int, int)>)
    requires Erasable(host, entries, observed) && AllSubstituted(Contents(host), Erasures(entries, observed), result)
    requires SpansSoFar(host, entries, observed, result, spans) && |spans| < |entries|
    ensures SpansSoFar(host, entries, observed, result, longer) && |longer| == |spans| + 1
  {
    var start, end := BodySpanOf(host, entries, observed, |spans|);
    BodyCarried(host, entries, observed, result, |spans|);
    MoreSpans(host, entries, observed, result, spans, (start, end));
    longer := spans + [(start, end)];
  }

  lemma MoreSpans(host: seq<Message>, entries: seq<FenceEntry>, observed: seq<Observed>, result: seq<string>, spans: seq<(int, int)>, span: (int, int))
    requires SpansSoFar(host, entries, observed, result, spans) && |spans| < |entries|
    requires span == BodySpan(entries, observed, |spans|) && SpanCarried(host, result, observed[|spans|], span)
    ensures SpansSoFar(host, entries, observed, result, spans + [span])
  {
  }

  method BodySpansOf(host: seq<Message>, entries: seq<FenceEntry>, observed: seq<Observed>, ghost result: seq<string>)
    returns (spans: seq<(int, int)>)
    requires Erasable(host, entries, observed) && AllSubstituted(Contents(host), Erasures(entries, observed), result)
    ensures AreBodySpans(entries, observed, spans) && AllCarried(host, result, observed, spans)
  {
    spans := [];
    for i := 0 to |observed|
      invariant |spans| == i && SpansSoFar(host, entries, observed, result, spans)
    {
      spans := NextSpan(host, entries, observed, result, spans);
    }
  }

  /** The override reported for one source. */
  function OverrideOf(result: seq<string>, lease: Lease, e: FenceEntry, o: Observed, span: (int, int)): Override
    requires InRange(result, o, span)
  {
    Override(lease.runId, e.identifier, e.sourceLabel, e.order, e.digest, o.message, span.0, span.1,
             Digest(Message(e.role, e.name, result[o.message][span.0..span.1])))
  }

  ghost predicate AllInRange(result: seq<string>, observed: seq<Observed>, spans: seq<(int, int)>) {
    |spans| == |observed| && forall i :: 0 <= i < |spans| ==> InRange(result, observed[i], spans[i])
  }

  ghost function OverridesOf(result: seq<string>, lease: Lease, observed: seq<Observed>, spans: seq<(int, int)>): (r: seq<Override>)
    requires |observed| == |lease.entries| && AllInRange(result, observed, spans)
    ensures |r| == |spans|
    ensures forall i :: 0 <= i < |r| ==> r[i] == OverrideOf(result, lease, lease.entries[i], observed[i], spans[i])
  {
    seq(|spans|, i requires 0 <= i < |spans| => OverrideOf(result, lease, lease.entries[i], observed[i], spans[i]))
  }

  method MakeOverrides(result: seq<string>, lease: Lease, observed: seq<Observed>, spans: seq<(int, int)>)
    returns (r: Result<seq<Override>, FenceError>)
    requires |observed| == |lease.entries| && AllInRange(result, observed, spans)
    ensures r.Success? ==> r.value == OverridesOf(result, lease, observed, spans)
    ensures r.Success? <==> AllGone(result, lease.entries, observed, |observed|)
    ensures r.Failure? ==> r.error == OutputInvalid
  {
    var overrides: seq<Override> := [];
    for i := 0 to |spans|
      invariant |overrides| == i && AllGone(result, lease.entries, observed, i)
      invariant forall k :: 0 <= k < i ==> overrides[k] == OverrideOf(result, lease, lease.entries[k], observed[k], spans[k])
    {
      var e, o, content := lease.entries[i], observed[i], result[observed[i].message];
      IncludesIff(content, e.startMarker);
      IncludesIff(content, e.endMarker);
      if spans[i].0 < 0 || spans[i].1 <= spans[i].0 || spans[i].1 > |content| || Includes(content, e.startMarker) || Includes(content, e.endMarker) {
        return Failure(OutputInvalid);
      }
      overrides := overrides + [OverrideOf(result, lease, e, o, spans[i])];
    }
    r := Success(overrides);
  }

  ghost predicate SpansApart(o: Override, p: Override) {
    o.provider != p.provider || o.end <= p.start || p.end <= o.start
  }

  ghost predicate OverridesApart(overrides: seq<Override>) {
    forall i, j :: 0 <= i < j < |overrides| ==> SpansApart(overrides[i], overrides[j])
  }

  lemma BodiesApart(host: seq<Message>, entries: seq<FenceEntry>, observed: seq<Observed>, i: nat, j: nat)
    requires Erasable(host, entries, observed) && i < j < |entries| && observed[i].message == observed[j].message
    ensures BodySpan(entries, observed, i).1 <= BodySpan(entries, observed, j).0
         || BodySpan(entries, observed, j).1 <= BodySpan(entries, observed, i).0
  {
    SeenInside(host, entries[i], observed[i]);
    SeenInside(host, entries[j], observed[j]);
    BodiesClear(host, entries, observed, i);
    BodiesClear(host, entries, observed, j);
    var spans, m := Erasures(entries, observed), observed[i].message;
    assert Apart(Extents(observed)[i], Extents(observed)[j]);
    if observed[i].markerEnd <= observed[j].markerStart {
      MovedMonotone(Contents(host), spans, m, observed[i].bodyEnd, observed[j].bodyStart);
    } else {
      MovedMonotone(Contents(host), spans, m, observed[j].bodyEnd, observed[i].bodyStart);
    }
  }

  lemma AllBodiesApart(host: seq<Message>, lease: Lease, observed: seq<Observed>, spans: seq<(int, int)>, result: seq<string>)
    requires Erasable(host, lease.entries, observed) && AreBodySpans(lease.entries, observed, spans)
    requires AllInRange(result, observed, spans)
    ensures OverridesApart(OverridesOf(result, lease, observed, spans))
  {
    var overrides := OverridesOf(result, lease, observed, spans);
    forall i, j | 0 <= i < j < |overrides|
      ensures overrides[i].provider != overrides[j].provider || overrides[i].end <= overrides[j].start || overrides[j].end <= overrides[i].start
    {
      if observed[i].message == observed[j].message { BodiesApart(host, lease.entries, observed, i, j); }
    }
  }

  method EraseMarkers(host: seq<Message>, entries: seq<FenceEntry>, observed: seq<Observed>) returns (r: Result<seq<string>, FenceError>)
    requires AllSeen(host, entries, observed) && Markers(entries)
    ensures r.Success? <==> Disjoint(Extents(observed))
    ensures r.Success? ==> Erasable(host, entries, observed) && AllSubstituted(Contents(host), Erasures(entries, observed), r.value)
    ensures r.Failure? ==> r.error == CoordinateDrift
  {
    ExtentsInBounds(host, entries, observed);
    var apart := NoOverlaps(Contents(host), Extents(observed));
    if !apart { return Failure(CoordinateDrift); }
    ErasuresFit(host, entries, observed);
    ErasuresDisjoint(host, entries, observed);
    var erased := ReplaceSpans(Contents(host), Erasures(entries, observed));
    if erased.None? { return Failure(MarkerDrift); }
    r := Success(erased.value);
  }

  /** What a restoration is: the markers of every entry erased, and each body reported where it ended up. */
  datatype Outcome = Outcome(observed: seq<Observed>, contents: seq<string>, spans: seq<(int, int)>)

  /** Exactly when, and how, a lease can be restored from a host output. */
  ghost predicate RestorableTo(host: seq<Message>, lease: Lease, out: Outcome) {
    && lease.entries != [] && lease.runId != ""
    && Erasable(host, lease.entries, out.observed)
    && AllSubstituted(Contents(host), Erasures(lease.entries, out.observed), out.contents)
    && AreBodySpans(lease.entries, out.observed, out.spans)
    && AllInRange(out.contents, out.observed, out.spans)
    && AllGone(out.contents, lease.entries, out.observed, |out.observed|)
    && SameOrder(OverridesOf(out.contents, lease, out.observed, out.spans))
  }

  ghost predicate Restorable(host: seq<Message>, lease: Lease) {
    exists out :: RestorableTo(host, lease, out)
  }

  lemma SeenOnce(host: seq<Message>, e: FenceEntry, a: Observed, b: Observed)
    requires SeenAt(host, e, a) && SeenAt(host, e, b)
    ensures a == b
  {
    assert FoundAt(Contents(host), e.startMarker, Occurrence(a.message, a.markerStart));
    assert FoundAt(Contents(host), e.endMarker, Occurrence(a.message, a.bodyEnd));
  }

  lemma AllSeenOnce(host: seq<Message>, entries: seq<FenceEntry>, a: seq<Observed>, b: seq<Observed>)
    requires AllSeen(host, entries, a) && AllSeen(host, entries, b)
    ensures a == b
  {
    forall i | 0 <= i < |entries| ensures a[i] == b[i] { SeenOnce(host, entries[i], a[i], b[i]); }
  }

  lemma ErasedOnce(contents: seq<string>, spans: seq<Span>, a: seq<string>, b: seq<string>)
    requires InBounds(contents, spans) && Disjoint(spans)
    requires AllSubstituted(contents, spans, a) && AllSubstituted(contents, spans, b)
    ensures a == b
  {
  }

  lemma BodySpansOnce(entries: seq<FenceEntry>, observed: seq<Observed>, a: seq<(int, int)>, b: seq<(int, int)>)
    requires AreBodySpans(entries, observed, a) && AreBodySpans(entries, observed, b)
    ensures a == b
  {
  }

  /** There is only one way to restore. */
  lemma OutcomeUnique(host: seq<Message>, lease: Lease, a: Outcome, b: Outcome)
    requires RestorableTo(host, lease, a)
    requires Erasable(host, lease.entries, b.observed)
    requires AllSubstituted(Contents(host), Erasures(lease.entries, b.observed), b.contents)
    requires AreBodySpans(lease.entries, b.observed, b.spans)
    ensures a == b
  {
    AllSeenOnce(host, lease.entries, a.observed, b.observed);
    ErasedOnce(Contents(host), Erasures(lease.entries, a.observed), a.contents, b.contents);
    BodySpansOnce(lease.entries, a.observed, a.spans, b.spans);
  }

  /** Reads the new spans off the erased messages and checks them. */
  method Report(host: seq<Message>, lease: Lease, observed: seq<Observed>, erased: seq<string>)
    returns (r: Result<seq<Override>, FenceError>, ghost out: Outcome)
    requires lease.entries != [] && lease.runId != ""
    requires Erasable(host, lease.entries, observed)
    requires AllSubstituted(Contents(host), Erasures(lease.entries, observed), erased)
    ensures out.observed == observed && out.contents == erased
    ensures AreBodySpans(lease.entries, observed, out.spans) && AllCarried(host, erased, observed, out.spans)
    ensures r.Success? <==> RestorableTo(host, lease, out)
    ensures r.Success? ==> r.value == OverridesOf(erased, lease, observed, out.spans)
    ensures r.Failure? ==> r.error == if AllGone(erased, lease.entries, observed, |observed|) then CoordinateDrift else OutputInvalid
  {
    var spans := BodySpansOf(host, lease.entries, observed, erased);
    out := Outcome(observed, erased, spans);
    var overrides := MakeOverrides(erased, lease, observed, spans);
    if overrides.Failure? { return Failure(overrides.error), out; }
    if !SameOrder(overrides.value) { return Failure(CoordinateDrift), out; }
    r := Success(overrides.value);
  }

  method RestoreLease(host: seq<Message>, lease: Lease) returns (r: Result<Restored, FenceError>, ghost out: Outcome)
    requires Markers(lease.entries)
    ensures r.Success? <==> Restorable(host, lease)
    ensures r.Success? ==>
      && RestorableTo(host, lease, out) && AllCarried(host, out.contents, out.observed, out.spans)
      && |out.contents| == |host| && r.value.messages == WithContents(host, out.contents)
      && r.value.overrides == OverridesOf(out.contents, lease, out.observed, out.spans)
    ensures r == Failure(LeaseInvalid) <==> lease.entries == [] || lease.runId == ""
    ensures r == Failure(OutputInvalid) ==>
      Erasable(host, lease.entries, out.observed) && !AllGone(out.contents, lease.entries, out.observed, |out.observed|)
    ensures r == Failure(MarkerMissing) ==> exists e :: e in lease.entries && MarkerLost(host, e)
    ensures r == Failure(MarkerAmbiguous) ==> exists e :: e in lease.entries && !MarkerLost(host, e) && !MarkersOnce(host, e)
  {
    hide MarkerLost, MarkersOnce, SeenAt, Erasable, AreBodySpans, AllGone;
    out := Outcome([], [], []);
    if lease.entries == [] || lease.runId == "" { return Failure(LeaseInvalid), out; }
    var seen := ObserveFences(host, lease.entries);
    if seen.Failure? {
      NotSeen(host, lease);
      return Failure(seen.error), out;
    }
    var erased := EraseMarkers(host, lease.entries, seen.value);
    if erased.Failure? {
      NotApart(host, lease, seen.value);
      return Failure(erased.error), out;
    }
    var overrides;
    overrides, out := Report(host, lease, seen.value, erased.value);
    if overrides.Failure? {
      forall other | RestorableTo(host, lease, other) ensures other == out { OutcomeUnique(host, lease, other, out); }
      return Failure(overrides.error), out;
    }
    r := Success(Restored(WithContents(host, erased.value), overrides.value));
  }

  lemma NotSeen(host: seq<Message>, lease: Lease)
    requires exists i :: 0 <= i < |lease.entries| && !Seeable(host, lease.entries[i])
    ensures !Restorable(host, lease)
  {
  }

  lemma NotApart(host: seq<Message>, lease: Lease, observed: seq<Observed>)
    requires AllSeen(host, lease.entries, observed) && !Disjoint(Extents(observed))
    ensures !Restorable(host, lease)
  {
    if Restorable(host, lease) {
      var out :| RestorableTo(host, lease, out);
      AllSeenOnce(host, lease.entries, out.observed, observed);
    }
  }

  // ---- What any successful restoration says ----

  /** For every host output on which restoring succeeds: each override slices the restored message to exactly the text
      that stood between its markers, overrides are pairwise disjoint, and internal order is provider order. */
  lemma RestorationFacts(host: seq<Message>, lease: Lease, out: Outcome, overrides: seq<Override>)
    requires RestorableTo(host, lease, out) && AllCarried(host, out.contents, out.observed, out.spans)
    requires overrides == OverridesOf(out.contents, lease, out.observed, out.spans)
    ensures forall i :: 0 <= i < |overrides| ==>
      && InRange(out.contents, out.observed[i], (overrides[i].start, overrides[i].end))
      && overrides[i].provider == out.observed[i].message
      && out.contents[overrides[i].provider][overrides[i].start..overrides[i].end]
         == host[out.observed[i].message].content[out.observed[i].bodyStart..out.observed[i].bodyEnd]
    ensures OverridesApart(overrides)
    ensures OrdersAgree(overrides)
  {
    forall i | 0 <= i < |overrides|
      ensures InRange(out.contents, out.observed[i], (overrides[i].start, overrides[i].end))
      ensures overrides[i].provider == out.observed[i].message
      ensures out.contents[overrides[i].provider][overrides[i].start..overrides[i].end]
         == host[out.observed[i].message].content[out.observed[i].bodyStart..out.observed[i].bodyEnd]
    {
      assert SpanCarried(host, out.contents, out.observed[i], out.spans[i]);
    }
    AllBodiesApart(host, lease, out.observed, out.spans, out.contents);
    SameOrderAgrees(overrides);
  }
}
