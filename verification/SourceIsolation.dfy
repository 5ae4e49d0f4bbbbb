/** The isolation lease: author sources are replaced by placeholders while the host transforms the
    prompt, and put back afterwards (source-isolation-lease.js). */
module SourceIsolation {
  import opened TextEdits
  import opened TextSearch
  import opened Ordering
  import opened MessageSpans
  import opened Markers
  import opened PlacedMarkers
  import opened PromptEntries
  import opened Brackets
  import opened Rendering

  datatype IsolationError =
    | OrderInvalid | ContentInvalid | GrantHashMismatch | NonceInvalid
    | MappingMissing | MappingAmbiguous | PlaceholderCollision | SpanOverlap | SpanDrift
    | LeaseInvalid | PlaceholderMissing | PlaceholderAmbiguous | PlaceholderSurvived

  datatype Source = Source(identifier: Identifier, order: nat, digest: Digest, sourceLabel: string, content: string)

  datatype LeaseEntry = LeaseEntry(source: Source, message: int, start: int, end: int, placeholder: string)

  datatype Lease = Lease(id: string, entries: seq<LeaseEntry>)

  datatype Isolation = Isolation(messages: seq<Message>, lease: Option<Lease>)

  datatype Receipt = Receipt(
    identifier: Identifier, order: nat, digest: Digest, sourceLabel: string, provider: int, start: int, end: int)

  datatype Restoration = Restoration(messages: seq<Message>, receipts: seq<Receipt>)

  // ---- Which entries are isolated ----

  ghost predicate Isolatable(e: Entry, internal: seq<Message>) {
    && 0 <= e.order < |internal| && internal[e.order].content != ""
    && e.grant.Some? && e.grant.value.promptDigest == e.digest
  }

  function SourceOf(e: Entry, internal: seq<Message>): Source
    requires Isolatable(e, internal)
  {
    Source(e.identifier, e.order, e.digest, e.sourceLabel, internal[e.order].content)
  }

  function Authorized(entries: seq<Entry>): (r: seq<Entry>)
    ensures forall e :: e in r <==> e in entries && e.policy == RemoveAbsorbed
  {
    if entries == [] then []
    else (if entries[0].policy == RemoveAbsorbed then [entries[0]] else []) + Authorized(entries[1..])
  }

  /** The authorised entries are those of the trace with the removal policy, each once and in trace order. */
  lemma {:induction false} AuthorizedInOrder(entries: seq<Entry>) returns (from: seq<nat>)
    ensures Selected(entries, (e: Entry) => e.policy == RemoveAbsorbed, Authorized(entries), from)
  {
    from := [];
    if entries != [] {
      var rest := AuthorizedInOrder(entries[1..]);
      from := SelectedInFront(entries, (e: Entry) => e.policy == RemoveAbsorbed, Authorized(entries[1..]), rest);
    }
  }

  ghost predicate AllIsolatable(authorized: seq<Entry>, internal: seq<Message>) {
    forall i :: 0 <= i < |authorized| ==> Isolatable(authorized[i], internal)
  }

  ghost function SourcesOf(authorized: seq<Entry>, internal: seq<Message>): (r: seq<Source>)
    requires AllIsolatable(authorized, internal)
    ensures |r| == |authorized|
    ensures forall i :: 0 <= i < |r| ==> r[i] == SourceOf(authorized[i], internal)
  {
    seq(|authorized|, i requires 0 <= i < |authorized| => SourceOf(authorized[i], internal))
  }

  method AuthorizedSources(entries: seq<Entry>, internal: seq<Message>) returns (r: Result<seq<Source>, IsolationError>)
    ensures r.Success? <==> AllIsolatable(Authorized(entries), internal)
    ensures r.Success? ==> r.value == SourcesOf(Authorized(entries), internal)
    ensures r.Failure? ==> r.error in {OrderInvalid, ContentInvalid, GrantHashMismatch}
    ensures r == Failure(OrderInvalid) ==> exists e :: e in Authorized(entries) && e.order < 0
    ensures r == Failure(ContentInvalid) ==>
      exists e :: e in Authorized(entries) && 0 <= e.order && (e.order < |internal| ==> internal[e.order].content == "")
    ensures r == Failure(GrantHashMismatch) ==>
      exists e :: e in Authorized(entries) && (e.grant.Some? ==> e.grant.value.promptDigest != e.digest)
  {
    var authorized := Authorized(entries);
    var sources := [];
    for i := 0 to |authorized|
      invariant |sources| == i
      invariant forall k :: 0 <= k < i ==> Isolatable(authorized[k], internal) && sources[k] == SourceOf(authorized[k], internal)
    {
      var e := authorized[i];
      assert e in Authorized(entries);
      if e.order < 0 { return Failure(OrderInvalid); }
      if e.order >= |internal| || internal[e.order].content == "" { return Failure(ContentInvalid); }
      if e.grant.None? || e.grant.value.promptDigest != e.digest { return Failure(GrantHashMismatch); }
      sources := sources + [SourceOf(e, internal)];
    }
    r := Success(sources);
  }

  // ---- Creating a lease ----

  function SpanOf(e: LeaseEntry): Span {
    Span(e.message, e.start, e.end, e.source.content, e.placeholder)
  }

  function SpansOf(entries: seq<LeaseEntry>): (r: seq<Span>)
    ensures |r| == |entries|
    ensures forall i :: 0 <= i < |r| ==> r[i] == SpanOf(entries[i])
  {
    seq(|entries|, i requires 0 <= i < |entries| => SpanOf(entries[i]))
  }

  ghost predicate Located(contents: seq<string>, id: string, e: LeaseEntry) {
    && e.source.content != ""
    && OnlyAt(contents, e.source.content, Occurrence(e.message, e.start))
    && e.end == e.start + |e.source.content|
    && e.placeholder == Placeholder(id, e.source.order)
    && Absent(contents, e.placeholder)
  }

  /** What a lease for `working` says of the messages handed to the host. */
  ghost predicate LeaseFor(working: seq<Message>, isolated: seq<Message>, lease: Lease) {
    && lease.entries != [] && lease.id != "" && SafeText(lease.id)
    && (forall i :: 0 <= i < |lease.entries| ==> Located(Contents(working), lease.id, lease.entries[i]))
    && Placeable(Contents(working), SpansOf(lease.entries), SOURCE_OPEN, SOURCE_CLOSE)
    && AllSubstituted(Contents(working), SpansOf(lease.entries), Contents(isolated))
    && isolated == WithContents(working, Contents(isolated))
  }

  /** Located sources whose spans do not overlap can be replaced, and have different orders. */
  lemma LocatedPlaceable(contents: seq<string>, id: string, entries: seq<LeaseEntry>)
    requires SafeText(id)
    requires forall i :: 0 <= i < |entries| ==> Located(contents, id, entries[i])
    requires InBounds(contents, SpansOf(entries)) && Disjoint(SpansOf(entries))
    requires SameContent(entries)
    ensures Placeable(contents, SpansOf(entries), SOURCE_OPEN, SOURCE_CLOSE)
    ensures forall i, j :: 0 <= i < j < |entries| ==> entries[i].source.order != entries[j].source.order
  {
    var spans := SpansOf(entries);
    forall i | 0 <= i < |spans|
      ensures Holds(contents[spans[i].message], spans[i]) && Bracketed(spans[i].text, SOURCE_OPEN, SOURCE_CLOSE) && Absent(contents, spans[i].text)
    {
      assert Located(contents, id, entries[i]);
      assert FoundAt(contents, entries[i].source.content, Occurrence(entries[i].message, entries[i].start));
      PlaceholderBracketed(id, entries[i].source.order);
    }
    forall i, j | 0 <= i < j < |entries| ensures entries[i].source.order != entries[j].source.order && spans[i].text != spans[j].text {
      DistinctOrders(contents, id, entries, i, j);
      if spans[i].text == spans[j].text { PlaceholderInjective(id, entries[i].source.order, entries[j].source.order); }
    }
  }

  /** Entries of the same order carry the same text: it is read from the internal message of that order. */
  ghost predicate SameContent(entries: seq<LeaseEntry>) {
    forall i, j :: 0 <= i < j < |entries| && entries[i].source.order == entries[j].source.order ==>
      entries[i].source.content == entries[j].source.content
  }

  lemma DistinctOrders(contents: seq<string>, id: string, entries: seq<LeaseEntry>, i: nat, j: nat)
    requires i < j < |entries| && SameContent(entries)
    requires Located(contents, id, entries[i]) && Located(contents, id, entries[j])
    requires Apart(SpanOf(entries[i]), SpanOf(entries[j]))
    ensures entries[i].source.order != entries[j].source.order
  {
    var o, p := Occurrence(entries[i].message, entries[i].start), Occurrence(entries[j].message, entries[j].start);
    assert OnlyAt(contents, entries[i].source.content, o) && OnlyAt(contents, entries[j].source.content, p);
    assert o != p;
  }

  /** Exactly when a source can be replaced: one occurrence, and a placeholder not yet in use. */
  ghost predicate Findable(contents: seq<string>, id: string, s: Source) {
    && (exists o :: OnlyAt(contents, s.content, o))
    && Absent(contents, Placeholder(id, s.order))
  }

  /** The spans of two sources do not overlap. */
  ghost predicate SourcesApart(contents: seq<string>, a: Source, b: Source) {
    forall o, p :: OnlyAt(contents, a.content, o) && OnlyAt(contents, b.content, p) ==>
      o.message != p.message || o.start + |a.content| <= p.start || p.start + |b.content| <= o.start
  }

  ghost predicate AllFindable(contents: seq<string>, id: string, sources: seq<Source>) {
    forall i :: 0 <= i < |sources| ==> Findable(contents, id, sources[i])
  }

  ghost predicate AllApart(contents: seq<string>, sources: seq<Source>) {
    forall i, j :: 0 <= i < j < |sources| ==> SourcesApart(contents, sources[i], sources[j])
  }

  /** When a lease is granted, over all inputs. */
  ghost predicate CanIsolate(working: seq<Message>, internal: seq<Message>, entries: seq<Entry>, nonce: string) {
    && AllIsolatable(Authorized(entries), internal)
    && (Authorized(entries) != [] ==>
        && SafeId(nonce) != ""
        && AllFindable(Contents(working), SafeId(nonce), SourcesOf(Authorized(entries), internal))
        && AllApart(Contents(working), SourcesOf(Authorized(entries), internal)))
  }

  /** The lease lists these sources, in this order. */
  ghost predicate Leases(lease: Lease, sources: seq<Source>) {
    && |lease.entries| == |sources|
    && forall i :: 0 <= i < |sources| ==> lease.entries[i].source == sources[i]
  }

  method LocateSource(contents: seq<string>, id: string, s: Source) returns (r: Result<LeaseEntry, IsolationError>)
    requires s.content != ""
    ensures r.Success? ==> r.value.source == s && Located(contents, id, r.value)
    ensures r.Success? <==> Findable(contents, id, s)
    ensures r.Failure? ==> r.error in {MappingMissing, MappingAmbiguous, PlaceholderCollision}
    ensures r == Failure(MappingMissing) <==> Absent(contents, s.content)
    ensures r == Failure(PlaceholderCollision) ==> exists o :: OnlyAt(contents, s.content, o)
  {
    var found := FindOccurrences(contents, s.content);
    if found != [] { OneOccurrence(contents, s.content, found, found[0]); }
    if |found| != 1 {
      forall o | OnlyAt(contents, s.content, o) ensures false {
        OneOccurrence(contents, s.content, found, o);
      }
      return Failure(if |found| == 0 then MappingMissing else MappingAmbiguous);
    }
    assert OnlyAt(contents, s.content, found[0]);
    var placeholder := Placeholder(id, s.order);
    var present := AnyIncludes(contents, placeholder);
    if present { return Failure(PlaceholderCollision); }
    r := Success(LeaseEntry(s, found[0].message, found[0].start, found[0].start + |s.content|, placeholder));
  }

  lemma LocatedInBounds(contents: seq<string>, id: string, entries: seq<LeaseEntry>)
    requires forall i :: 0 <= i < |entries| ==> Located(contents, id, entries[i])
    ensures InBounds(contents, SpansOf(entries))
  {
    forall i | 0 <= i < |entries|
      ensures 0 <= entries[i].message < |contents| && 0 <= entries[i].start < entries[i].end <= |contents[entries[i].message]|
    {
      assert FoundAt(contents, entries[i].source.content, Occurrence(entries[i].message, entries[i].start));
    }
  }

  lemma LocatedApart(contents: seq<string>, id: string, a: LeaseEntry, b: LeaseEntry)
    requires Located(contents, id, a) && Located(contents, id, b)
    ensures Apart(SpanOf(a), SpanOf(b)) <==> SourcesApart(contents, a.source, b.source)
  {
    var o, p := Occurrence(a.message, a.start), Occurrence(b.message, b.start);
    assert OnlyAt(contents, a.source.content, o) && OnlyAt(contents, b.source.content, p);
  }

  lemma DisjointIffApart(contents: seq<string>, id: string, entries: seq<LeaseEntry>, sources: seq<Source>)
    requires forall i :: 0 <= i < |entries| ==> Located(contents, id, entries[i])
    requires Leases(Lease(id, entries), sources)
    ensures Disjoint(SpansOf(entries)) <==> AllApart(contents, sources)
  {
    forall i, j | 0 <= i < j < |entries|
      ensures Apart(SpansOf(entries)[i], SpansOf(entries)[j]) <==> SourcesApart(contents, sources[i], sources[j])
    {
      LocatedApart(contents, id, entries[i], entries[j]);
    }
  }

  method LocateSources(contents: seq<string>, id: string, sources: seq<Source>) returns (r: Result<seq<LeaseEntry>, IsolationError>)
    requires forall i :: 0 <= i < |sources| ==> sources[i].content != ""
    ensures r.Success? <==> AllFindable(contents, id, sources)
    ensures r.Success? ==> Leases(Lease(id, r.value), sources)
    ensures r.Success? ==> forall i :: 0 <= i < |r.value| ==> Located(contents, id, r.value[i])
    ensures r.Failure? ==> r.error in {MappingMissing, MappingAmbiguous, PlaceholderCollision}
  {
    var entries: seq<LeaseEntry> := [];
    for i := 0 to |sources|
      invariant |entries| == i
      invariant forall k :: 0 <= k < i ==> entries[k].source == sources[k] && Located(contents, id, entries[k]) && Findable(contents, id, sources[k])
    {
      var e := LocateSource(contents, id, sources[i]);
      if e.Failure? { return Failure(e.error); }
      entries := entries + [e.value];
    }
    r := Success(entries);
  }

  /** Locates, checks and replaces the sources of a non-empty list. */
  method IsolateSources(working: seq<Message>, id: string, sources: seq<Source>) returns (r: Result<Isolation, IsolationError>)
    requires sources != [] && id != "" && SafeText(id)
    requires forall i :: 0 <= i < |sources| ==> sources[i].content != ""
    requires forall i, j :: 0 <= i < j < |sources| && sources[i].order == sources[j].order ==> sources[i].content == sources[j].content
    ensures r.Success? <==> AllFindable(Contents(working), id, sources) && AllApart(Contents(working), sources)
    ensures r.Success? ==> r.value.lease.Some? && r.value.lease.value.id == id && Leases(r.value.lease.value, sources)
    ensures r.Success? ==> LeaseFor(working, r.value.messages, r.value.lease.value)
    ensures r.Failure? ==> r.error != SpanDrift
  {
    var contents := Contents(working);
    var located := LocateSources(contents, id, sources);
    if located.Failure? { return Failure(located.error); }
    var leased := located.value;
    LocatedInBounds(contents, id, leased);
    DisjointIffApart(contents, id, leased, sources);
    var apart := NoOverlaps(contents, SpansOf(leased));
    if !apart { return Failure(SpanOverlap); }
    LocatedPlaceable(contents, id, leased);
    var replaced := ReplaceSpans(contents, SpansOf(leased));
    if replaced.None? { return Failure(SpanDrift); }
    r := Success(Isolation(WithContents(working, replaced.value), Some(Lease(id, leased))));
    assert Contents(r.value.messages) == replaced.value;
  }

  /** The lease entry names the source of this trace entry, at a place that holds exactly the source's text. */
  ghost predicate HidesSource(l: LeaseEntry, e: Entry, working: seq<Message>, internal: seq<Message>) {
    && l.source.identifier == e.identifier && l.source.order == e.order
    && l.source.digest == e.digest && l.source.sourceLabel == e.sourceLabel
    && 0 <= e.order < |internal| && l.source.content == internal[e.order].content
    && 0 <= l.message < |working| && 0 <= l.start <= l.end <= |working[l.message].content|
    && working[l.message].content[l.start..l.end] == internal[e.order].content
  }

  lemma LeaseHidesSource(working: seq<Message>, internal: seq<Message>, lease: Lease, authorized: seq<Entry>, i: nat)
    requires AllIsolatable(authorized, internal) && i < |authorized|
    requires |lease.entries| == |authorized| && lease.entries[i].source == SourceOf(authorized[i], internal)
    requires Located(Contents(working), lease.id, lease.entries[i])
    ensures HidesSource(lease.entries[i], authorized[i], working, internal)
  {
    hide Absent;
    var l := lease.entries[i];
    assert FoundAt(Contents(working), l.source.content, Occurrence(l.message, l.start));
  }

  /** Position `p` of message `m` belongs to a leased source. */
  ghost predicate HiddenAt(lease: Lease, m: int, p: int) {
    exists i :: 0 <= i < |lease.entries| && lease.entries[i].message == m && lease.entries[i].start <= p < lease.entries[i].end
  }

  /** What stands before position `p` of message `m` instead: the placeholder of the source that starts there. */
  ghost function PutAt(lease: Lease, m: int, p: int): string {
    if i :| 0 <= i < |lease.entries| && lease.entries[i].message == m && lease.entries[i].start == p
    then lease.entries[i].placeholder else ""
  }

  /** Nothing but the leased sources leaves the messages, and nothing but their placeholders comes in. */
  lemma OnlySourcesLeave(working: seq<Message>, isolated: seq<Message>, lease: Lease, m: int)
    requires LeaseFor(working, isolated, lease) && 0 <= m < |working|
    ensures |isolated| == |working| && isolated[m] == working[m].(content := isolated[m].content)
    ensures isolated[m].content
         == Render(working[m].content, p => HiddenAt(lease, m, p), p => PutAt(lease, m, p), 0, |working[m].content|)
  {
    hide Located, Render, SubstituteAt;
    var contents, spans := Contents(working), SpansOf(lease.entries);
    var gone, put: int -> string := p => HiddenAt(lease, m, p), p => PutAt(lease, m, p);
    LeaseDescribes(lease, m, contents, gone, put);
    SubstitutedRenders(contents, spans, m, gone, put);
  }

  lemma LeaseDescribes(lease: Lease, m: int, contents: seq<string>, gone: int -> bool, put: int -> string)
    requires InBounds(contents, SpansOf(lease.entries)) && Disjoint(SpansOf(lease.entries))
    requires forall p :: gone(p) == HiddenAt(lease, m, p) && put(p) == PutAt(lease, m, p)
    ensures SpansDescribe(SpansOf(lease.entries), m, gone, put, if 0 <= m < |contents| then |contents[m]| else 0)
  {
    hide HiddenAt, PutAt, OverwrittenAt, Disjoint, InBounds;
    var spans, n := SpansOf(lease.entries), if 0 <= m < |contents| then |contents[m]| else 0;
    forall p | 0 <= p < n ensures gone(p) <==> OverwrittenAt(spans, m, p) {
      HiddenIsOverwritten(lease, m, p);
    }
    forall k | 0 <= k < |spans| && spans[k].message == m ensures put(spans[k].start) == spans[k].text {
      PutOnce(contents, lease, m, k);
    }
    forall p | 0 <= p < n && (forall k :: 0 <= k < |spans| && spans[k].message == m ==> spans[k].start != p) ensures put(p) == "" {
      forall i | 0 <= i < |lease.entries| && lease.entries[i].message == m ensures lease.entries[i].start != p {
        assert spans[i].start != p;
      }
      NothingPutAt(lease, m, p);
    }
  }

  lemma NothingPutAt(lease: Lease, m: int, p: int)
    requires forall i :: 0 <= i < |lease.entries| && lease.entries[i].message == m ==> lease.entries[i].start != p
    ensures PutAt(lease, m, p) == ""
  {
  }

  lemma HiddenIsOverwritten(lease: Lease, m: int, p: int)
    ensures HiddenAt(lease, m, p) <==> OverwrittenAt(SpansOf(lease.entries), m, p)
  {
    var spans := SpansOf(lease.entries);
    if i :| 0 <= i < |lease.entries| && lease.entries[i].message == m && lease.entries[i].start <= p < lease.entries[i].end {
      assert spans[i].message == m && spans[i].start <= p < spans[i].end;
    }
    if k :| 0 <= k < |spans| && spans[k].message == m && spans[k].start <= p < spans[k].end {
      assert lease.entries[k].message == m;
    }
  }

  lemma PutOnce(contents: seq<string>, lease: Lease, m: int, k: nat)
    requires InBounds(contents, SpansOf(lease.entries)) && Disjoint(SpansOf(lease.entries))
    requires k < |lease.entries| && lease.entries[k].message == m
    ensures PutAt(lease, m, lease.entries[k].start) == lease.entries[k].placeholder
  {
    var spans, p := SpansOf(lease.entries), lease.entries[k].start;
    forall i | 0 <= i < |lease.entries| && lease.entries[i].message == m && i != k ensures lease.entries[i].start != p {
      StartsDiffer(contents, spans, i, k);
    }
  }

  lemma StartsDiffer(contents: seq<string>, spans: seq<Span>, i: nat, k: nat)
    requires InBounds(contents, spans) && Disjoint(spans) && i < |spans| && k < |spans|
    requires i != k && spans[i].message == spans[k].message
    ensures spans[i].start != spans[k].start
  {
    if i < k { assert Apart(spans[i], spans[k]); } else { assert Apart(spans[k], spans[i]); }
  }

  method CreateLease(working: seq<Message>, internal: seq<Message>, entries: seq<Entry>, nonce: string)
    returns (r: Result<Isolation, IsolationError>)
    ensures r.Success? <==> CanIsolate(working, internal, entries, nonce)
    ensures r.Success? && Authorized(entries) == [] ==> r.value == Isolation(working, None)
    ensures r.Success? && Authorized(entries) != [] ==>
      && r.value.lease.Some? && r.value.lease.value.id == SafeId(nonce)
      && Leases(r.value.lease.value, SourcesOf(Authorized(entries), internal))
      && LeaseFor(working, r.value.messages, r.value.lease.value)
      && forall i :: 0 <= i < |Authorized(entries)| ==>
           HidesSource(r.value.lease.value.entries[i], Authorized(entries)[i], working, internal)
    ensures r.Failure? ==> r.error != SpanDrift
  {
    var sources := AuthorizedSources(entries, internal);
    if sources.Failure? { return Failure(sources.error); }
    if sources.value == [] { return Success(Isolation(working, None)); }
    var id := SafeId(nonce);
    if id == "" { return Failure(NonceInvalid); }
    r := IsolateSources(working, id, sources.value);
    if r.Success? {
      forall i | 0 <= i < |Authorized(entries)|
        ensures HidesSource(r.value.lease.value.entries[i], Authorized(entries)[i], working, internal)
      {
        LeaseHidesSource(working, internal, r.value.lease.value, Authorized(entries), i);
      }
    }
  }

  // ---- Restoring a lease ----

  function ReceiptOf(e: LeaseEntry, o: Occurrence): Receipt {
    Receipt(e.source.identifier, e.source.order, e.source.digest, e.source.sourceLabel,
            o.message, o.start, o.start + |e.source.content|)
  }

  /** One source put back where its placeholder is found, exactly once. */
  ghost predicate PutBackOnce(before: seq<string>, e: LeaseEntry, receipt: Receipt, after: seq<string>) {
    var o := Occurrence(receipt.provider, receipt.start);
    && OnlyAt(before, e.placeholder, o)
    && receipt == ReceiptOf(e, o)
    && after == PutBack(before, o, |e.placeholder|, e.source.content)
  }

  /** The states the messages pass through, one source at a time in lease order. */
  ghost predicate RestorePath(states: seq<seq<string>>, entries: seq<LeaseEntry>, receipts: seq<Receipt>) {
    && |states| == |entries| + 1 && |receipts| == |entries|
    && forall t :: 0 <= t < |entries| ==> PutBackOnce(states[t], entries[t], receipts[t], states[t + 1])
  }

  /** Exactly when placeholders can be put back: each is found once when its turn comes, and none is left over. */
  ghost predicate Returnable(working: seq<Message>, lease: Lease) {
    lease.entries != [] && exists states, receipts :: PutsBack(Contents(working), lease, states, receipts)
  }

  ghost predicate PutsBack(contents: seq<string>, lease: Lease, states: seq<seq<string>>, receipts: seq<Receipt>) {
    && RestorePath(states, lease.entries, receipts) && states[0] == contents
    && forall i :: 0 <= i < |lease.entries| ==> Absent(states[|lease.entries|], lease.entries[i].placeholder)
  }

  /** There is one way to put sources back. */
  lemma {:induction false} PathUnique(
      entries: seq<LeaseEntry>, n: nat, states: seq<seq<string>>, receipts: seq<Receipt>,
      others: seq<seq<string>>, otherReceipts: seq<Receipt>, t: nat)
    requires n <= |entries|
    requires RestorePath(states, entries[..n], receipts) && RestorePath(others, entries, otherReceipts)
    requires states[0] == others[0] && t <= n
    ensures states[t] == others[t]
  {
    if t > 0 {
      PathUnique(entries, n, states, receipts, others, otherReceipts, t - 1);
      assert PutBackOnce(states[t - 1], entries[..n][t - 1], receipts[t - 1], states[t]);
      assert PutBackOnce(others[t - 1], entries[t - 1], otherReceipts[t - 1], others[t]);
    }
  }

  /** Where one source cannot be put back, no path leads on. */
  lemma PathStuck(entries: seq<LeaseEntry>, t: nat, states: seq<seq<string>>, receipts: seq<Receipt>)
    requires t < |entries| && RestorePath(states, entries[..t], receipts)
    requires forall o :: !OnlyAt(states[t], entries[t].placeholder, o)
    ensures forall others, received :: !(RestorePath(others, entries, received) && others[0] == states[0])
  {
    forall others, received | RestorePath(others, entries, received) && others[0] == states[0] ensures false {
      PathGoesOn(entries, t, states, receipts, others, received);
    }
  }

  lemma PathGoesOn(
      entries: seq<LeaseEntry>, t: nat, states: seq<seq<string>>, receipts: seq<Receipt>,
      others: seq<seq<string>>, received: seq<Receipt>)
    requires t < |entries| && RestorePath(states, entries[..t], receipts)
    requires RestorePath(others, entries, received) && others[0] == states[0]
    ensures OnlyAt(states[t], entries[t].placeholder, Occurrence(received[t].provider, received[t].start))
  {
    PathUnique(entries, t, states, receipts, others, received, t);
    assert PutBackOnce(others[t], entries[t], received[t], others[t + 1]);
  }

  function OrderKey(): Receipt -> Key {
    (r: Receipt) => (r.order, 0)
  }

  /** The receipt describes the source of the entry, over as many characters as it has. */
  ghost predicate Receives(receipt: Receipt, e: LeaseEntry) {
    && receipt.identifier == e.source.identifier && receipt.order == e.source.order
    && receipt.digest == e.source.digest && receipt.sourceLabel == e.source.sourceLabel
    && receipt.end == receipt.start + |e.source.content|
  }

  lemma ReceiptsSorted(entries: seq<LeaseEntry>, states: seq<seq<string>>, receipts: seq<Receipt>)
    requires RestorePath(states, entries, receipts)
    ensures forall t :: 0 <= t < |receipts| ==> Receives(receipts[t], entries[t])
    ensures var sorted := Sort(receipts, OrderKey());
      && multiset(sorted) == multiset(receipts)
      && forall j, k :: 0 <= j < k < |sorted| ==> sorted[j].order <= sorted[k].order
  {
    hide Sort, PutBack, OnlyAt;
    SortSorted(receipts, OrderKey());
    forall t | 0 <= t < |receipts| ensures Receives(receipts[t], entries[t]) {
      assert PutBackOnce(states[t], entries[t], receipts[t], states[t + 1]);
    }
  }

  /** Where the placeholder of entry `t` stands once the entries before it have been put back. */
  ghost function RestoredAt(entries: seq<LeaseEntry>, t: nat): Occurrence
    requires t < |entries|
  {
    assert SpansOf(entries[t..])[0] == SpanOf(entries[t]);
    MarkerPosition(SpansOf(entries[t..]), SpanOf(entries[t]))
  }

  /** The receipts of an undisturbed lease, in lease order. */
  ghost predicate Receipts(entries: seq<LeaseEntry>, receipts: seq<Receipt>) {
    |receipts| == |entries| && ReceiptsSoFar(entries, receipts)
  }

  ghost predicate ReceiptsSoFar(entries: seq<LeaseEntry>, receipts: seq<Receipt>) {
    && |receipts| <= |entries|
    && forall t :: 0 <= t < |receipts| ==> receipts[t] == ReceiptOf(entries[t], RestoredAt(entries, t))
  }

  lemma MoreReceipts(entries: seq<LeaseEntry>, receipts: seq<Receipt>, r: Receipt)
    requires ReceiptsSoFar(entries, receipts) && |receipts| < |entries|
    requires r == ReceiptOf(entries[|receipts|], RestoredAt(entries, |receipts|))
    ensures ReceiptsSoFar(entries, receipts + [r])
  {
    hide RestoredAt, ReceiptOf;
  }

  lemma LongerPath(states: seq<seq<string>>, entries: seq<LeaseEntry>, receipts: seq<Receipt>, t: nat, r: Receipt, next: seq<string>)
    requires t < |entries| && RestorePath(states, entries[..t], receipts)
    requires PutBackOnce(states[t], entries[t], r, next)
    ensures RestorePath(states + [next], entries[..t + 1], receipts + [r])
  {
    assert entries[..t + 1] == entries[..t] + [entries[t]];
  }

  /** The messages part-way through restoring an undisturbed lease: entries from `t` on still replaced. */
  ghost predicate PartlyRestored(original: seq<Message>, lease: Lease, t: int, cur: seq<string>)
    requires 0 <= t <= |lease.entries|
  {
    && Placeable(Contents(original), SpansOf(lease.entries[t..]), SOURCE_OPEN, SOURCE_CLOSE)
    && AllSubstituted(Contents(original), SpansOf(lease.entries[t..]), cur)
  }

  lemma RestoreStep(original: seq<Message>, lease: Lease, t: nat, cur: seq<string>)
    requires t < |lease.entries| && PartlyRestored(original, lease, t, cur)
    ensures OnlyAt(cur, lease.entries[t].placeholder, RestoredAt(lease.entries, t))
    ensures PartlyRestored(original, lease, t + 1,
              PutBack(cur, RestoredAt(lease.entries, t), |lease.entries[t].placeholder|, lease.entries[t].source.content))
  {
    var spans := SpansOf(lease.entries[t..]);
    assert spans[0] == SpanOf(lease.entries[t]) && spans[1..] == SpansOf(lease.entries[t + 1..]);
    MarkerFoundOnce(Contents(original), spans, cur, spans[0], SOURCE_OPEN, SOURCE_CLOSE);
    UndoHead(Contents(original), spans, cur);
    PlaceableTail(Contents(original), spans, SOURCE_OPEN, SOURCE_CLOSE);
  }

  lemma FullyRestored(original: seq<Message>, lease: Lease, cur: seq<string>)
    requires PartlyRestored(original, lease, |lease.entries|, cur)
    ensures cur == Contents(original)
  {
    assert SpansOf(lease.entries[|lease.entries|..]) == [];
    NothingSubstituted(Contents(original), cur);
  }

  method PutBackSource(cur: seq<string>, e: LeaseEntry, ghost original: seq<Message>, ghost lease: Lease, ghost t: nat)
    returns (r: Result<(seq<string>, Receipt), IsolationError>)
    requires t < |lease.entries| && e == lease.entries[t] && e.placeholder != ""
    ensures r.Success? ==> PutBackOnce(cur, e, r.value.1, r.value.0) && |r.value.0| == |cur|
    ensures r.Success? <==> exists o :: OnlyAt(cur, e.placeholder, o)
    ensures r.Failure? ==> r.error == if Absent(cur, e.placeholder) then PlaceholderMissing else PlaceholderAmbiguous
    ensures PartlyRestored(original, lease, t, cur) ==>
      && r.Success? && r.value.1 == ReceiptOf(e, RestoredAt(lease.entries, t))
      && PartlyRestored(original, lease, t + 1, r.value.0)
  {
    var found := FindOccurrences(cur, e.placeholder);
    if PartlyRestored(original, lease, t, cur) {
      RestoreStep(original, lease, t, cur);
    }
    forall o | OnlyAt(cur, e.placeholder, o) ensures found == [o] {
      OneOccurrence(cur, e.placeholder, found, o);
    }
    if found != [] { assert FoundAt(cur, e.placeholder, found[0]); }
    if |found| != 1 { return Failure(if |found| == 0 then PlaceholderMissing else PlaceholderAmbiguous); }
    var o := found[0];
    OneOccurrence(cur, e.placeholder, found, o);
    assert OnlyAt(cur, e.placeholder, o);
    r := Success((PutBack(cur, o, |e.placeholder|, e.source.content), ReceiptOf(e, o)));
  }

  method PutBackSources(contents: seq<string>, lease: Lease, ghost original: seq<Message>)
    returns (r: Result<(seq<string>, seq<Receipt>), IsolationError>, ghost states: seq<seq<string>>)
    requires forall i :: 0 <= i < |lease.entries| ==> lease.entries[i].placeholder != ""
    ensures r.Success? ==> RestorePath(states, lease.entries, r.value.1) && states[0] == contents
    ensures r.Success? ==> states[|lease.entries|] == r.value.0 && |r.value.0| == |contents|
    ensures PartlyRestored(original, lease, 0, contents) ==>
      r.Success? && r.value.0 == Contents(original) && Receipts(lease.entries, r.value.1)
    ensures r.Failure? ==> r.error in {PlaceholderMissing, PlaceholderAmbiguous}
    ensures r.Failure? ==> forall others, received :: !(RestorePath(others, lease.entries, received) && others[0] == contents)
  {
    hide PutBackOnce, OnlyAt, Located, Placeable, AllSubstituted;
    var cur, receipts := contents, [];
    states := [contents];
    ghost var undisturbed := PartlyRestored(original, lease, 0, contents);
    for t := 0 to |lease.entries|
      invariant |cur| == |contents| && |receipts| == t
      invariant RestorePath(states, lease.entries[..t], receipts) && states[0] == contents && states[t] == cur
      invariant undisturbed ==> PartlyRestored(original, lease, t, cur) && ReceiptsSoFar(lease.entries, receipts)
    {
      var step := PutBackSource(cur, lease.entries[t], original, lease, t);
      if step.Failure? {
        PathStuck(lease.entries, t, states, receipts);
        return Failure(step.error), states;
      }
      LongerPath(states, lease.entries, receipts, t, step.value.1, step.value.0);
      if undisturbed { MoreReceipts(lease.entries, receipts, step.value.1); }
      cur, receipts := step.value.0, receipts + [step.value.1];
      states := states + [cur];
    }
    assert lease.entries[..|lease.entries|] == lease.entries;
    if undisturbed { FullyRestored(original, lease, cur); }
    r := Success((cur, receipts));
  }

  method AnyPlaceholder(contents: seq<string>, entries: seq<LeaseEntry>) returns (found: bool)
    ensures found <==> exists i :: 0 <= i < |entries| && !Absent(contents, entries[i].placeholder)
  {
    for i := 0 to |entries|
      invariant forall k :: 0 <= k < i ==> Absent(contents, entries[k].placeholder)
    {
      found := AnyIncludes(contents, entries[i].placeholder);
      if found { return; }
    }
    found := false;
  }

  lemma LeaseUndisturbed(original: seq<Message>, working: seq<Message>, lease: Lease)
    requires LeaseFor(original, working, lease)
    ensures PartlyRestored(original, lease, 0, Contents(working))
    ensures forall i :: 0 <= i < |lease.entries| ==> Absent(Contents(original), lease.entries[i].placeholder)
    ensures WithContents(working, Contents(original)) == original
  {
    assert lease.entries[0..] == lease.entries;
    forall i | 0 <= i < |lease.entries| ensures Absent(Contents(original), lease.entries[i].placeholder) {
      assert Located(Contents(original), lease.id, lease.entries[i]);
    }
  }

  /** A placeholder that survives the one way to put sources back leaves no way. */
  lemma NotReturnable(working: seq<Message>, lease: Lease, states: seq<seq<string>>, receipts: seq<Receipt>)
    requires RestorePath(states, lease.entries, receipts) && states[0] == Contents(working)
    requires exists i :: 0 <= i < |lease.entries| && !Absent(states[|lease.entries|], lease.entries[i].placeholder)
    ensures !Returnable(working, lease)
  {
    var n := |lease.entries|;
    assert lease.entries[..n] == lease.entries;
    forall others, received | PutsBack(Contents(working), lease, others, received) ensures false {
      PathUnique(lease.entries, n, states, receipts, others, received, n);
    }
  }

  method RestoreLease(working: seq<Message>, lease: Lease, ghost original: seq<Message>)
    returns (r: Result<Restoration, IsolationError>, ghost receipts: seq<Receipt>, ghost states: seq<seq<string>>)
    requires forall i :: 0 <= i < |lease.entries| ==> lease.entries[i].placeholder != ""
    ensures r.Success? ==>
      && lease.entries != [] && RestorePath(states, lease.entries, receipts) && states[0] == Contents(working)
      && |states[|lease.entries|]| == |working|
      && r.value.messages == WithContents(working, states[|lease.entries|])
      && r.value.receipts == Sort(receipts, OrderKey())
    ensures r.Success? ==> forall i :: 0 <= i < |lease.entries| ==> Absent(Contents(r.value.messages), lease.entries[i].placeholder)
    ensures LeaseFor(original, working, lease) ==> r.Success? && r.value.messages == original && Receipts(lease.entries, receipts)
    ensures r.Success? ==>
      && (forall t :: 0 <= t < |lease.entries| ==> t < |receipts| && Receives(receipts[t], lease.entries[t]))
      && multiset(r.value.receipts) == multiset(receipts)
      && forall j, k :: 0 <= j < k < |r.value.receipts| ==> r.value.receipts[j].order <= r.value.receipts[k].order
    ensures r.Success? <==> Returnable(working, lease)
    ensures r == Failure(LeaseInvalid) <==> lease.entries == []
    ensures r.Failure? ==> r.error in {LeaseInvalid, PlaceholderMissing, PlaceholderAmbiguous, PlaceholderSurvived}
  {
    receipts, states := [], [];
    if lease.entries == [] { return Failure(LeaseInvalid), [], []; }
    if LeaseFor(original, working, lease) { LeaseUndisturbed(original, working, lease); }
    var put;
    put, states := PutBackSources(Contents(working), lease, original);
    if put.Failure? { return Failure(put.error), [], states; }
    receipts := put.value.1;
    var survived := AnyPlaceholder(put.value.0, lease.entries);
    if survived {
      NotReturnable(working, lease, states, receipts);
      return Failure(PlaceholderSurvived), receipts, states;
    }
    assert PutsBack(Contents(working), lease, states, receipts);
    ReceiptsSorted(lease.entries, states, receipts);
    r := Success(Restoration(WithContents(working, put.value.0), Sort(put.value.1, OrderKey())));
    assert Contents(r.value.messages) == put.value.0;
  }
}
