/** The entries of a prompt trace: one per internal message, each mapped to at most one provider span. */
module PromptEntries {
  import opened MessageSpans

  datatype Result<+T, +E> = Success(value: T) | Failure(error: E)

  /** The SHA-256 of a message's canonical JSON, taken to be injective. */
  datatype Digest = Digest(of: Message)

  datatype Identifier =
    | ChatHistory(ordinal: nat)   // "chatHistory-<ordinal>"
    | Named(text: string)
    | Anonymous

  datatype Policy = Retain | RemoveAbsorbed

  datatype Grant = Grant(id: string, promptDigest: Digest)

  datatype MappingKind =
    | ExactMessage
    | ContentSpan
    | StableHistory
    | StableHistoryAssistantPrefix
    | StableHistorySpan
    | StableAssistantSuffix
    | FencedHostTransform

  datatype Mapping = Mapping(provider: int, start: int, end: int, kind: MappingKind)

  ghost predicate MapsApart(a: Mapping, b: Mapping) {
    a.provider != b.provider || a.end <= b.start || b.end <= a.start
  }

  datatype Entry = Entry(
    order: int,
    identifier: Identifier,
    role: string,
    name: Option<string>,
    digest: Digest,
    sourceLabel: string,
    policy: Policy,
    grant: Option<Grant>,
    grantIssue: Option<string>,
    component: Option<string>,
    mapping: Option<Mapping>,
    ambiguous: bool)
}
