/** The invariant of a prompt trace: what a mapping of internal messages to provider spans must satisfy
    after each of the five passes of buildPromptTrace (runtime.js). */
module TraceEntries {
  import opened MessageSpans
  import opened PromptEntries

  /** The span lies inside its provider message. */
  ghost predicate Within(m: Mapping, providers: seq<Message>) {
    0 <= m.provider < |providers| && 0 <= m.start <= m.end <= |providers[m.provider].content|
  }

  ghost function SliceAt(m: Mapping, providers: seq<Message>): string
    requires 0 <= m.provider < |providers| && 0 <= m.start <= m.end <= |providers[m.provider].content|
  {
    providers[m.provider].content[m.start..m.end]
  }

  ghost predicate Whole(m: Mapping, providers: seq<Message>)
    requires Within(m, providers)
  {
    m.start == 0 && m.end == |providers[m.provider].content|
  }

  ghost predicate Spoken(e: Entry, m: Mapping, providers: seq<Message>)
    requires Within(m, providers)
  {
    providers[m.provider].role == e.role && providers[m.provider].name == e.name
  }

  /** What each kind of mapping promises of the text it points at. */
  ghost predicate Faithful(e: Entry, original: Message, m: Mapping, providers: seq<Message>)
    requires Within(m, providers)
  {
    var text := SliceAt(m, providers);
    match m.kind
    case ExactMessage => Whole(m, providers) && providers[m.provider] == original
    case ContentSpan => text == original.content && text != ""
    case StableHistory => Whole(m, providers) && providers[m.provider] == original
    case StableHistorySpan => text == original.content && text != "" && Spoken(e, m, providers)
    case StableHistoryAssistantPrefix =>
      Whole(m, providers) && text <= original.content && text != "" && Spoken(e, m, providers)
    case StableAssistantSuffix =>
      Whole(m, providers) && text < original.content && text != "" && Spoken(e, m, providers)
    case FencedHostTransform => text != "" && Spoken(e, m, providers) && e.digest == Digest(Message(e.role, e.name, text))
  }

  /** Entry `i` describes internal message `i`; only a fenced transform may carry another digest than that message's. */
  ghost predicate Describes(e: Entry, i: int, original: Message) {
    && e.order == i && e.role == original.role && e.name == original.name
    && (e.digest == Digest(original) || (e.mapping.Some? && e.mapping.value.kind == FencedHostTransform))
  }

  ghost predicate AllDescribe(entries: seq<Entry>, internal: seq<Message>) {
    |entries| == |internal| && forall i :: 0 <= i < |entries| ==> Describes(entries[i], i, internal[i])
  }

  ghost predicate MappedRight(e: Entry, original: Message, providers: seq<Message>) {
    e.mapping.Some? ==> Within(e.mapping.value, providers) && Faithful(e, original, e.mapping.value, providers)
  }

  ghost predicate Separate(entries: seq<Entry>) {
    forall i, j :: 0 <= i < j < |entries| && entries[i].mapping.Some? && entries[j].mapping.Some? ==>
      MapsApart(entries[i].mapping.value, entries[j].mapping.value)
  }

  /** The trace invariant: mappings stay inside their messages, say what they should, and never overlap. */
  ghost predicate Sound(entries: seq<Entry>, internal: seq<Message>, providers: seq<Message>) {
    && AllDescribe(entries, internal)
    && (forall i :: 0 <= i < |entries| ==> MappedRight(entries[i], internal[i], providers))
    && Separate(entries)
  }

  /** Some entry other than `i` is mapped across the given span. */
  predicate Crosses(entries: seq<Entry>, i: int, provider: int, start: int, end: int) {
    exists j :: 0 <= j < |entries| && j != i && CrossedBy(entries[j], provider, start, end)
  }

  predicate CrossedBy(e: Entry, provider: int, start: int, end: int) {
    && e.mapping.Some? && e.mapping.value.provider == provider
    && start < e.mapping.value.end && end > e.mapping.value.start
  }

  /** Some entry other than `i` is mapped into the provider message. */
  predicate Occupied(entries: seq<Entry>, i: int, provider: int) {
    exists j :: 0 <= j < |entries| && j != i && entries[j].mapping.Some? && entries[j].mapping.value.provider == provider
  }

  /** One more faithful mapping that crosses no other keeps the invariant. */
  lemma SoundUpdate(entries: seq<Entry>, internal: seq<Message>, providers: seq<Message>, i: nat, e: Entry)
    requires Sound(entries, internal, providers) && i < |entries|
    requires Describes(e, i, internal[i]) && MappedRight(e, internal[i], providers)
    requires e.mapping.Some? ==> !Crosses(entries, i, e.mapping.value.provider, e.mapping.value.start, e.mapping.value.end)
    ensures Sound(entries[i := e], internal, providers)
  {
    var after := entries[i := e];
    forall j, k | 0 <= j < k < |after| && after[j].mapping.Some? && after[k].mapping.Some?
      ensures MapsApart(after[j].mapping.value, after[k].mapping.value)
    {
      if j != i && k != i {
        assert MapsApart(entries[j].mapping.value, entries[k].mapping.value);
      } else {
        var other := if j == i then k else j;
        assert !CrossedBy(entries[other], e.mapping.value.provider, e.mapping.value.start, e.mapping.value.end);
      }
    }
  }
}
