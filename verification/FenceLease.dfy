/** The host-transform fence: retained author sources are enclosed in markers while the host transforms
    the prompt; restoring erases the markers and reports where each source ended up (runtime.js). */
module FenceLease {
  import opened TextEdits
  import opened TextSearch
  import opened Ordering
  import opened MessageSpans
  import opened Markers
  import opened PlacedMarkers
  import opened PromptEntries
  import opened Brackets
  import opened SpanShifts

  datatype FenceError =
    | InputInvalid | NonceInvalid | SourceDrift | MarkerCollision | SpanOverlap
    | LeaseInvalid | MarkerMissing | MarkerAmbiguous | CoordinateDrift | MarkerDrift | OutputInvalid

  datatype FenceEntry = FenceEntry(
    identifier: Identifier, sourceLabel: string, order: nat, role: string, name: Option<string>, digest: Digest,
    message: int, start: int, end: int, startMarker: string, endMarker: string)

  datatype Lease = Lease(runId: string, id: string, entries: seq<FenceEntry>)

  datatype Fenced = Fenced(messages: seq<Message>, lease: Option<Lease>)

  // ---- Creating ----

  const AUTHOR_LABELS := {"raw_worldbook", "raw_character_card", "raw_scenario", "raw_persona"}

  predicate IsCandidate(e: Entry) {
    e.policy == Retain && e.sourceLabel in AUTHOR_LABELS && e.component.Some? && e.mapping.Some?
  }

  function Candidates(entries: seq<Entry>): (r: seq<Entry>)
    ensures forall e :: e in r <==> e in entries && IsCandidate(e)
    ensures forall i :: 0 <= i < |r| ==> IsCandidate(r[i])
  {
    if entries == [] then []
    else (if IsCandidate(entries[0]) then [entries[0]] else []) + Candidates(entries[1..])
  }

  /** The fenced sources are the retained author sources with a component and a mapping, each once and in trace order. */
  lemma {:induction false} CandidatesInOrder(entries: seq<Entry>) returns (from: seq<nat>)
    ensures Selected(entries,
      (e: Entry) => && e.policy != RemoveAbsorbed && e.component.Some? && e.mapping.Some?
                    && e.sourceLabel in ["raw_worldbook", "raw_character_card", "raw_scenario", "raw_persona"],
      Candidates(entries), from)
  {
    from := [];
    if entries != [] {
      var rest := CandidatesInOrder(entries[1..]);
      from := SelectedInFront(entries,
        (e: Entry) => && e.policy != RemoveAbsorbed && e.component.Some? && e.mapping.Some?
                      && e.sourceLabel in ["raw_worldbook", "raw_character_card", "raw_scenario", "raw_persona"],
        Candidates(entries[1..]), rest);
    }
  }

  /** The entry still has its exact text at the span it was mapped to. */
  ghost predicate StillThere(e: Entry, working: seq<Message>, internal: seq<Message>)
    requires e.mapping.Some?
  {
    var m := e.mapping.value;
    && 0 <= e.order < |internal| && internal[e.order].content != ""
    && 0 <= m.provider < |working|
    && 0 <= m.start < m.end <= |working[m.provider].content|
    && working[m.provider].content[m.start..m.end] == internal[e.order].content
    && Digest(internal[e.order]) == e.digest
  }

  method IsStillThere(e: Entry, working: seq<Message>, internal: seq<Message>) returns (r: bool)
    requires e.mapping.Some?
    ensures r <==> StillThere(e, working, internal)
  {
    var m := e.mapping.value;
    if e.order < 0 || e.order >= |internal| || internal[e.order].content == "" { return false; }
    if m.provider < 0 || m.provider >= |working| { return false; }
    var content := working[m.provider].content;
    if m.start < 0 || m.end <= m.start || m.end > |content| { return false; }
    r := content[m.start..m.end] == internal[e.order].content && Digest(internal[e.order]) == e.digest;
  }

  function EntryOf(e: Entry, id: string): FenceEntry
    requires e.mapping.Some? && 0 <= e.order
  {
    FenceEntry(e.identifier, e.sourceLabel, e.order, e.role, e.name, e.digest,
               e.mapping.value.provider, e.mapping.value.start, e.mapping.value.end,
               StartMarker(id, e.order), EndMarker(id, e.order))
  }

  ghost predicate MarkersAbsent(contents: seq<string>, e: FenceEntry) {
    Absent(contents, e.startMarker) && Absent(contents, e.endMarker)
  }

  ghost predicate InPlace(contents: seq<string>, e: FenceEntry) {
    && 0 <= e.message < |contents|
    && 0 <= e.start < e.end <= |contents[e.message]|
  }

  ghost predicate AllInPlace(contents: seq<string>, entries: seq<FenceEntry>) {
    forall i :: 0 <= i < |entries| ==> InPlace(contents, entries[i])
  }

  function WrapOf(contents: seq<string>, e: FenceEntry): Span
    requires InPlace(contents, e)
  {
    var body := contents[e.message][e.start..e.end];
    Span(e.message, e.start, e.end, body, e.startMarker + body + e.endMarker)
  }

  function WrapsOf(contents: seq<string>, entries: seq<FenceEntry>): (r: seq<Span>)
    requires AllInPlace(contents, entries)
    ensures |r| == |entries|
    ensures forall i :: 0 <= i < |r| ==> r[i] == WrapOf(contents, entries[i])
    ensures InBounds(contents, r) && Matching(contents, r)
  {
    seq(|entries|, i requires 0 <= i < |entries| => WrapOf(contents, entries[i]))
  }

  ghost predicate MarkedWith(id: string, e: FenceEntry) {
    e.startMarker == StartMarker(id, e.order) && e.endMarker == EndMarker(id, e.order)
  }

  /** What a fence lease for `working` says of the messages handed to the host. */
  ghost predicate FenceFor(working: seq<Message>, fenced: seq<Message>, lease: Lease) {
    var contents := Contents(working);
    && lease.entries != [] && lease.runId != "" && lease.id != "" && SafeText(lease.id)
    && AllInPlace(contents, lease.entries)
    && (forall i :: 0 <= i < |lease.entries| ==>
          MarkedWith(lease.id, lease.entries[i]) && MarkersAbsent(contents, lease.entries[i]))
    && Disjoint(WrapsOf(contents, lease.entries))
    && AllSubstituted(contents, WrapsOf(contents, lease.entries), Contents(fenced))
    && fenced == WithContents(working, Contents(fenced))
  }

  ghost predicate Fits1(working: seq<Message>, internal: seq<Message>, id: string, e: Entry) {
    e.mapping.Some? && StillThere(e, working, internal) && MarkersAbsent(Contents(working), EntryOf(e, id))
  }

  /** The source is where it should be, but one of its markers is in use already. */
  ghost predicate Collides(working: seq<Message>, internal: seq<Message>, id: string, e: Entry) {
    e.mapping.Some? && StillThere(e, working, internal) && !MarkersAbsent(Contents(working), EntryOf(e, id))
  }

  ghost predicate MappingsApart(a: Entry, b: Entry)
    requires a.mapping.Some? && b.mapping.Some?
  {
    MapsApart(a.mapping.value, b.mapping.value)
  }

  /** When a fence lease is granted, over all inputs. */
  ghost predicate CanFence(working: seq<Message>, internal: seq<Message>, entries: seq<Entry>, runId: string, nonce: string) {
    var candidates := Candidates(entries);
    && runId != ""
    && (candidates != [] ==>
        && SafeId(nonce) != ""
        && (forall i :: 0 <= i < |candidates| ==> Fits1(working, internal, SafeId(nonce), candidates[i]))
        && (forall i, j :: 0 <= i < j < |candidates| ==> MappingsApart(candidates[i], candidates[j])))
  }

  ghost predicate LeasesEntries(lease: Lease, candidates: seq<Entry>) {
    && |lease.entries| == |candidates|
    && forall i :: 0 <= i < |candidates| ==>
         candidates[i].mapping.Some? && 0 <= candidates[i].order && lease.entries[i] == EntryOf(candidates[i], lease.id)
  }

  method FenceEntries(working: seq<Message>, internal: seq<Message>, candidates: seq<Entry>, id: string)
    returns (r: Result<seq<FenceEntry>, FenceError>)
    requires forall i :: 0 <= i < |candidates| ==> candidates[i].mapping.Some?
    ensures r.Success? <==> forall i :: 0 <= i < |candidates| ==> Fits1(working, internal, id, candidates[i])
    ensures r.Success? ==> LeasesEntries(Lease("", id, r.value), candidates) && AllInPlace(Contents(working), r.value)
    ensures r.Failure? ==> r.error in {SourceDrift, MarkerCollision}
    ensures r == Failure(SourceDrift) ==> exists i :: 0 <= i < |candidates| && !StillThere(candidates[i], working, internal)
    ensures r == Failure(MarkerCollision) ==> exists i :: 0 <= i < |candidates| && Collides(working, internal, id, candidates[i])
  {
    var contents := Contents(working);
    var entries: seq<FenceEntry> := [];
    for i := 0 to |candidates|
      invariant |entries| == i
      invariant forall k :: 0 <= k < i ==>
        && Fits1(working, internal, id, candidates[k])
        && entries[k] == EntryOf(candidates[k], id) && InPlace(contents, entries[k])
    {
      var e := candidates[i];
      var there := IsStillThere(e, working, internal);
      if !there { return Failure(SourceDrift); }
      var entry := EntryOf(e, id);
      var starts := AnyIncludes(contents, entry.startMarker);
      var ends := AnyIncludes(contents, entry.endMarker);
      if starts || ends {
        assert Collides(working, internal, id, candidates[i]);
        return Failure(MarkerCollision);
      }
      entries := entries + [entry];
    }
    r := Success(entries);
  }

  lemma WrapsApart(contents: seq<string>, lease: Lease, candidates: seq<Entry>)
    requires LeasesEntries(lease, candidates) && AllInPlace(contents, lease.entries)
    ensures Disjoint(WrapsOf(contents, lease.entries)) <==>
      forall i, j :: 0 <= i < j < |candidates| ==> MappingsApart(candidates[i], candidates[j])
  {
    var wraps := WrapsOf(contents, lease.entries);
    forall i, j | 0 <= i < j < |candidates| ensures Apart(wraps[i], wraps[j]) <==> MappingsApart(candidates[i], candidates[j]) {
    }
  }

  method InstallFences(working: seq<Message>, internal: seq<Message>, candidates: seq<Entry>, runId: string, id: string)
    returns (r: Result<Fenced, FenceError>)
    requires candidates != [] && runId != "" && id != "" && SafeText(id)
    requires forall i :: 0 <= i < |candidates| ==> candidates[i].mapping.Some?
    ensures r.Success? <==>
      && (forall i :: 0 <= i < |candidates| ==> Fits1(working, internal, id, candidates[i]))
      && (forall i, j :: 0 <= i < j < |candidates| ==> MappingsApart(candidates[i], candidates[j]))
    ensures r.Success? ==>
      && r.value.lease.Some? && r.value.lease.value.id == id && r.value.lease.value.runId == runId
      && LeasesEntries(r.value.lease.value, candidates)
      && FenceFor(working, r.value.messages, r.value.lease.value)
    ensures r.Failure? ==> r.error in {SourceDrift, MarkerCollision, SpanOverlap}
    ensures r == Failure(SourceDrift) ==> exists i :: 0 <= i < |candidates| && !StillThere(candidates[i], working, internal)
    ensures r == Failure(MarkerCollision) ==> exists i :: 0 <= i < |candidates| && Collides(working, internal, id, candidates[i])
  {
    var contents := Contents(working);
    var fenced := FenceEntries(working, internal, candidates, id);
    if fenced.Failure? { return Failure(fenced.error); }
    var lease := Lease(runId, id, fenced.value);
    WrapsApart(contents, lease, candidates);
    var wraps := WrapsOf(contents, lease.entries);
    var apart := NoOverlaps(contents, wraps);
    if !apart { return Failure(SpanOverlap); }
    var replaced := ReplaceSpans(contents, wraps);
    if replaced.None? { return Failure(SourceDrift); }
    forall i | 0 <= i < |lease.entries| ensures MarkedWith(id, lease.entries[i]) && MarkersAbsent(contents, lease.entries[i]) {
      assert Fits1(working, internal, id, candidates[i]);
    }
    r := Success(Fenced(WithContents(working, replaced.value), Some(lease)));
    assert Contents(r.value.messages) == replaced.value;
  }

  method CreateLease(working: seq<Message>, internal: seq<Message>, entries: seq<Entry>, runId: string, nonce: string)
    returns (r: Result<Fenced, FenceError>)
    ensures r.Success? <==> CanFence(working, internal, entries, runId, nonce)
    ensures r.Success? && Candidates(entries) == [] ==> r.value == Fenced(working, None)
    ensures r.Success? && Candidates(entries) != [] ==>
      && r.value.lease.Some? && r.value.lease.value.id == SafeId(nonce) && r.value.lease.value.runId == runId
      && LeasesEntries(r.value.lease.value, Candidates(entries))
      && FenceFor(working, r.value.messages, r.value.lease.value)
    ensures r == Failure(InputInvalid) <==> runId == ""
    ensures r == Failure(NonceInvalid) <==> runId != "" && Candidates(entries) != [] && SafeId(nonce) == ""
    ensures r == Failure(SourceDrift) ==> exists e :: e in Candidates(entries) && e.mapping.Some? && !StillThere(e, working, internal)
    ensures r == Failure(MarkerCollision) ==> exists e :: e in Candidates(entries) && Collides(working, internal, SafeId(nonce), e)
  {
    if runId == "" { return Failure(InputInvalid); }
    var candidates := Candidates(entries);
    if candidates == [] { return Success(Fenced(working, None)); }
    var id := SafeId(nonce);
    if id == "" { return Failure(NonceInvalid); }
    r := InstallFences(working, internal, candidates, runId, id);
    assert forall i :: 0 <= i < |candidates| ==> candidates[i] in candidates;
  }
}
