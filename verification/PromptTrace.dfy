/** buildPromptTrace (runtime.js) as a whole: entries are made, five passes map them, and every removal
    authorization must have found its one entry. */
module PromptTrace {
  import opened MessageSpans
  import opened PromptEntries
  import opened TraceEntries
  import FenceLease
  import FenceRestore
  import opened TraceGrants
  import opened TraceSources
  import TraceWholeMessages
  import TraceSpans
  import TraceAlignment
  import TraceSuffixes
  import TraceOverrides

  datatype TraceError = OverrideFailed(error: TraceOverrides.OverrideError) | RemovalEvidence

  // ---- The passes ----

  /** The entries after each pass, and the alignments found by the third. */
  datatype Passes = Passes(
    made: seq<Entry>, whole: seq<Entry>, spans: seq<Entry>, history: seq<Entry>, suffixes: seq<Entry>,
    up: seq<Mapping>, down: seq<Mapping>)

  ghost predicate PassesOf(internal: seq<Message>, providers: seq<Message>, last: Option<int>, p: Passes) {
    && |p.made| == |p.whole| == |p.spans| == |p.history| == |internal|
    && TraceWholeMessages.WholeMessagesMatched(p.made, internal, providers, p.whole)
    && TraceSpans.SpansMatched(p.whole, internal, providers, p.spans)
    && TraceAlignment.HistoryMatched(p.spans, internal, providers, last, p.up, p.down, p.history)
    && TraceSuffixes.SuffixesMatched(p.history, internal, providers, p.suffixes)
  }

  lemma SpansKeepSound(p: Passes, internal: seq<Message>, providers: seq<Message>)
    requires |p.whole| == |p.spans| == |internal| && Sound(p.whole, internal, providers)
    requires TraceSpans.SpansMatched(p.whole, internal, providers, p.spans)
    ensures Sound(p.spans, internal, providers)
  {
    TraceSpans.SpansSound(p.whole, internal, providers, p.spans);
    assert TraceSpans.State(p.whole, p.spans) == p.spans;
  }

  /** Every pass keeps the trace invariant. */
  lemma PassesSound(internal: seq<Message>, providers: seq<Message>, last: Option<int>, p: Passes)
    requires PassesOf(internal, providers, last, p)
    requires AllDescribe(p.made, internal) && TraceWholeMessages.Unmapped(p.made)
    ensures Sound(p.whole, internal, providers) && Sound(p.spans, internal, providers)
    ensures Sound(p.history, internal, providers) && Sound(p.suffixes, internal, providers)
  {
    hide Sound;
    TraceWholeMessages.WholeMessagesSound(p.made, internal, providers, p.whole);
    SpansKeepSound(p, internal, providers);
    TraceAlignment.HistorySound(p.spans, internal, providers, last, p.up, p.down, p.history);
    TraceSuffixes.SuffixesSound(p.history, internal, providers, p.suffixes);
  }

  lemma SoundInProviders(entries: seq<Entry>, internal: seq<Message>, providers: seq<Message>)
    requires Sound(entries, internal, providers)
    ensures |entries| == |internal| && TraceAlignment.InProviders(entries, providers)
  {
    forall i | 0 <= i < |entries| && entries[i].mapping.Some? ensures 0 <= entries[i].mapping.value.provider < |providers| {
      assert MappedRight(entries[i], internal[i], providers);
    }
  }

  method MapEntries(made: seq<Entry>, internal: seq<Message>, providers: seq<Message>, last: Option<int>)
    returns (entries: seq<Entry>, ghost p: Passes)
    requires AllDescribe(made, internal) && TraceWholeMessages.Unmapped(made)
    ensures PassesOf(internal, providers, last, p) && p.made == made && p.suffixes == entries
    ensures Sound(entries, internal, providers)
  {
    hide TraceWholeMessages.WholeMessagesMatched, TraceAlignment.HistoryMatched, TraceSuffixes.SuffixesMatched, Sound;
    var whole := TraceWholeMessages.MatchWholeMessages(made, internal, providers);
    TraceWholeMessages.WholeMessagesSound(made, internal, providers, whole);
    SoundInProviders(whole, internal, providers);
    var spans := TraceSpans.MatchSpans(whole, internal, providers);
    p := Passes(made, whole, spans, [], [], [], []);
    SpansKeepSound(p, internal, providers);
    SoundInProviders(spans, internal, providers);
    var history, up, down := TraceAlignment.MatchHistory(spans, internal, providers, last);
    TraceAlignment.HistorySound(spans, internal, providers, last, up, down, history);
    SoundInProviders(history, internal, providers);
    entries := TraceSuffixes.MatchSuffixes(history, internal, providers);
    TraceSuffixes.SuffixesSound(history, internal, providers, entries);
    p := Passes(made, whole, spans, history, entries, up, down);
  }

  /** No pass changes what an entry is, nor whether it is removed. */
  lemma PassesKeep(internal: seq<Message>, providers: seq<Message>, last: Option<int>, p: Passes)
    requires PassesOf(internal, providers, last, p) && TraceWholeMessages.Unmapped(p.made)
    ensures AllSameSource(p.made, p.suffixes)
  {
    hide AllSameSource, TraceWholeMessages.WholeMessagesMatched, TraceSpans.SpansMatched, TraceAlignment.HistoryMatched,
         TraceSuffixes.SuffixesMatched;
    WholeMessagesKeep(p.made, internal, providers, p.whole);
    SpansKeep(p.whole, internal, providers, p.spans);
    HistoryKeeps(p.spans, internal, providers, last, p.up, p.down, p.history);
    SuffixesKeep(p.history, internal, providers, p.suffixes);
    SameSourceChain(p.made, p.whole, p.spans);
    SameSourceChain(p.made, p.spans, p.history);
    SameSourceChain(p.made, p.history, p.suffixes);
  }

  method BuildTrace(
      runId: string, internal: seq<Message>, origins: seq<Origin>, authorizations: seq<Authorization>,
      providers: seq<Message>, last: Option<int>, overrides: seq<FenceRestore.Override>)
    returns (r: Result<seq<Entry>, TraceError>, ghost p: Passes)
    requires |internal| == |origins|
    ensures Made(internal, origins, authorizations, p.made) && PassesOf(internal, providers, last, p)
    ensures r.Success? ==>
      && TraceOverrides.Acceptable(overrides, runId, p.suffixes, providers)
      && TraceOverrides.Overridden(p.suffixes, overrides, |overrides|, r.value)
    ensures r.Success? ==> OneToOne(authorizations, r.value) && Sound(r.value, internal, providers)
    ensures r.Failure? && r.error.OverrideFailed? <==> !TraceOverrides.Acceptable(overrides, runId, p.suffixes, providers)
    ensures r == Failure(RemovalEvidence) <==>
      TraceOverrides.Acceptable(overrides, runId, p.suffixes, providers) && !Evidence(internal, origins, authorizations)
    ensures r.Success? ==> AllSameSource(p.made, r.value)
  {
    hide Evidence, AllSameSource, Made, PassesOf, TraceOverrides.Acceptable, TraceOverrides.Overridden, OneToOne, Sound;
    var made := MakeEntries(internal, origins, authorizations);
    MadeDescribe(internal, origins, authorizations, made);
    var mapped;
    mapped, p := MapEntries(made, internal, providers, last);
    var overridden := TraceOverrides.ApplyOverrides(mapped, providers, runId, overrides);
    if overridden.Failure? { return Failure(OverrideFailed(overridden.error)), p; }
    TraceOverrides.OverridesSound(overrides, runId, mapped, internal, providers, overridden.value);
    PassesKeep(internal, providers, last, p);
    OverridesKeep(mapped, overrides, overridden.value);
    SameSourceChain(made, mapped, overridden.value);
    OneToOneIff(internal, origins, authorizations, made, overridden.value);
    if !OneToOne(authorizations, overridden.value) { return Failure(RemovalEvidence), p; }
    r := Success(overridden.value);
  }

  // ---- What a trace says ----

  ghost predicate KeepsText(kind: MappingKind) {
    kind in {ExactMessage, ContentSpan, StableHistory, StableHistorySpan}
  }

  ghost predicate KeepsStart(kind: MappingKind) {
    kind in {StableHistoryAssistantPrefix, StableAssistantSuffix}
  }

  /** A mapped entry slices its provider message to its own text, or to a non-empty start of it. */
  lemma SoundSlices(entries: seq<Entry>, internal: seq<Message>, providers: seq<Message>, i: nat)
    requires Sound(entries, internal, providers) && i < |entries| && entries[i].mapping.Some?
    ensures Within(entries[i].mapping.value, providers)
    ensures var m := entries[i].mapping.value;
      && (KeepsText(m.kind) ==> SliceAt(m, providers) == internal[i].content)
      && (KeepsStart(m.kind) ==> "" < SliceAt(m, providers) <= internal[i].content)
      && (m.kind == FencedHostTransform ==> entries[i].digest == Digest(Message(entries[i].role, entries[i].name, SliceAt(m, providers))))
  {
    assert MappedRight(entries[i], internal[i], providers);
    var m := entries[i].mapping.value;
    var whole := providers[m.provider].content;
    assert whole[0..|whole|] == whole;
  }

  /** No two entries are mapped to overlapping spans. */
  lemma SoundDisjoint(entries: seq<Entry>, internal: seq<Message>, providers: seq<Message>, i: nat, j: nat, at: int)
    requires Sound(entries, internal, providers) && i < |entries| && j < |entries| && i != j
    requires entries[i].mapping.Some? && entries[i].mapping.value.start <= at < entries[i].mapping.value.end
    requires entries[j].mapping.Some? && entries[j].mapping.value.start <= at < entries[j].mapping.value.end
    ensures entries[i].mapping.value.provider != entries[j].mapping.value.provider
  {
    assert i < j ==> MapsApart(entries[i].mapping.value, entries[j].mapping.value);
    assert j < i ==> MapsApart(entries[j].mapping.value, entries[i].mapping.value);
  }
}
