# Mnemosyne: verified model of the SillyTavern extension's core

Mnemosyne is an extension that takes over parts of a SillyTavern prompt. It hides author sources from the host
while the host works on the prompt, follows each source through the host's transformations, removes exactly the
sources it was authorised to remove, keeps a chat's governed history consistent with a history service, and
installs its own server plugin. This project models that core and proves what it guarantees.

**Prompt spans.** `TextEdits`, `Markers`, `MessageSpans`, `SpanShifts` and `PlacedMarkers` are a small theory of
overwriting spans of text: a parallel substitution, the right-to-left loops that refine it, bracketed markers that
never straddle, nest in or prefix one another, and the offset arithmetic of text that moves; `Rendering` says what is
left of a text character by character. On it stand the
source-isolation lease (`SourceIsolation`, `IsolationReceipts`), the host-transform fence (`FenceLease`,
`FenceRestore`, `FenceText`, `FenceRoundTrip`, `FenceUndisturbed`), the two event handlers that apply and take
off both (`PromptTransform`), the prompt trace with its five mapping passes (`PromptEntries`, `TraceEntries`,
`TraceGrants`, `TraceSources`, `TraceWholeMessages`, `TraceSpans`, `TraceHistory`, `TraceAlignment`, `TraceSuffixes`,
`TraceOverrides`, `PromptTrace`, `FencedTrace`), the forwarding prediction (`Forwarding`), the merging of prompt messages
(`MessageMerge`, `MergeFacts`, `Speakers`) and the frames of foreign dry assemblies (`DryFrameMarker`, `ForeignDryFrames`).

**History invalidation.** `HistoryGuard` is the persisted guard: validity, create, merge, reconcile, plan.
`HistoryRequests` proves facts about whole runs of requests, `HistoryResolution` the loop that settles a pending
edit before a generation, and `HistoryProtocol` the protocol with the history service, over every run with lost,
late and repeated deliveries and crashes at any await. `HistoryObserver` finds the edits nobody reported.

**Installation.** `Octal`, `Paths` and `RuntimeTar` read the runtime archive; the writer that the reader is proved
to invert follows the "ustar Interchange Format" section of the `pax` utility in IEEE Std 1003.1. `ConfigLines`,
`ConfigSettings` and `ConfigRewrite` rewrite `config.yaml` line by line; `FolderInstall` installs the files in
order, under a failure or crash at any step.

**Smaller cores.** `PayloadMeasure` (a size that states itself), `GateCensus` (a bounded buffer whose sink may call
back into it or throw), `WorldInfo`, `WorldInfoProvenance` and `WorldInfoBuild` (builder and validator of
provenance components).

Code that updates state is modelled by classes and loops, each proved against a specification; the properties are
lemmas about the specification. Source paths below are relative to the repository's root; a line range names the
code a member models.

## Where the code does less than it promises

Each of these is proved, next to the exact condition under which the promise holds.

- Fences put around sources that stand against their internal order can never be taken off again, not even when the
  host changes nothing (`PromptTransform.ReversedSourcesFenced`, `PromptTransform.ReversedSourcesStuck`); exactly the
  sources standing in internal order, each in a message of its own role and name, can
  (`FenceUndisturbed.UndisturbedRestorable`).
- A source-isolation receipt misses its source when a source restored later stands to its left and differs in length
  from its placeholder (`IsolationReceipts.ReceiptSlicesIff`, `IsolationReceipts.ReceiptDriftExample`,
  `IsolationReceipts.ReceiptDrift`).
- A retained source that is nothing but white space is lost with the message whose other sources are removed
  (`Forwarding.WhiteSpaceLost`); any other retained segment is forwarded (`Forwarding.SegmentForwarded`).
- Merging messages is not idempotent when an empty message stands between two others of its role, the later one with text
  (`MergeFacts.EmptyMessageNotIdempotent`; exactly when: `MergeFacts.LenientTwice`, `MergeFacts.StrictTwice`).
- Rewriting `config.yaml` is idempotent exactly unless the text ends in a lone carriage return, has no "\r\n" and a key
  is missing (`ConfigRewrite.IdempotentIff`, `ConfigRewrite.LoneReturn`). When such a text can be rewritten twice, a second
  installation leaves neither the old text nor its rewriting (`FolderInstall.UnsteadyDrifts`,
  `FolderInstall.LoneReturnUnsteady`); on every other text repeated installations are safe (`FolderInstall.InstallsAreSafe`).
- An edit observed beyond the history a pending guard knows of is refused by the merge (`HistoryObserver.ObservedIsMerged`,
  `HistoryObserver.LaterReplyRefused`).
- A backup that a failed write left empty makes every later attempt stop before `config.yaml`
  (`FolderInstall.EmptyBackupBlocks`).

## Model

| member | source | states |
|---|---|---|
| TextSearch.FindOccurrences | tavern-mnemosyne/integrations/sillytavern-extension/source-isolation-lease.js:67-83 | lists exactly the occurrences of a text in the messages, overlapping ones included, each once and in reading order |
| TextEdits.SliceSurvives | tavern-mnemosyne/integrations/sillytavern-extension/runtime.js:3302-3312 | text that no edit touches is found again after all edits, moved by the lengths of the edits before it |
| TextEdits.SpliceOnTheLeft | tavern-mnemosyne/integrations/sillytavern-extension/source-isolation-lease.js:129-147 | one more splice to the left of everything already edited gives the simultaneous substitution of all edits: the step by which a right-to-left loop refines parallel substitution |
| TextEdits.UndoOne | tavern-mnemosyne/integrations/sillytavern-extension/source-isolation-lease.js:245-277 | putting the original text back at the place where one edit landed gives the text in which only the other edits were made |
| Rendering.SubstitutedRenders | tavern-mnemosyne/integrations/sillytavern-extension/source-isolation-lease.js:129-147 | a text with all its edits made is, character by character, the characters outside every edit and the inserted texts, each where its edit stands |
| MessageSpans.NoOverlaps | tavern-mnemosyne/integrations/sillytavern-extension/source-isolation-lease.js:98-119 | grouping by message, sorting and comparing neighbours answers exactly whether any two spans overlap |
| MessageSpans.ReplaceSpans | tavern-mnemosyne/integrations/sillytavern-extension/source-isolation-lease.js:121-149 | overwriting from the right succeeds exactly when every span holds what it should, and then is the substitution of all spans at once |
| SpanShifts.SliceMoved | tavern-mnemosyne/integrations/sillytavern-extension/runtime.js:3302-3312 | text between the spans is found at its position plus what the spans to its left gained |
| Markers.MarkerInThreeParts | tavern-mnemosyne/integrations/sillytavern-extension/source-isolation-lease.js:4-5 | an occurrence of one bracketed marker in a text around another is left of it, right of it, or the marker itself: markers neither straddle, nest in nor prefix one another |
| Markers.MarkerOrigin | tavern-mnemosyne/integrations/sillytavern-extension/source-isolation-lease.js:4-5 | a marker found in an edited text is an inserted one, where it was inserted, or was in the original |
| Brackets.PlaceholderInjective | tavern-mnemosyne/integrations/sillytavern-extension/source-isolation-lease.js:188-191 | placeholders of one lease differ for different orders |
| Brackets.FenceInjective | tavern-mnemosyne/integrations/sillytavern-extension/runtime.js:3109-3114 | start and end markers of one lease differ for different orders and from each other |
| Brackets.SafeIdKeeps | tavern-mnemosyne/integrations/sillytavern-extension/runtime.js:3009-3020 | a lease id consists of exactly the letters, digits, "_" and "-" of the nonce, each once and in order |
| PlacedMarkers.MarkerFoundOnce | tavern-mnemosyne/integrations/sillytavern-extension/source-isolation-lease.js:245-259 | each placed marker occurs in the marked messages exactly once, where it was put |
| PlacedMarkers.UndoHead | tavern-mnemosyne/integrations/sillytavern-extension/source-isolation-lease.js:260-266 | putting one source back leaves the messages in which exactly the other sources are replaced |
| SourceIsolation.AuthorizedSources | tavern-mnemosyne/integrations/sillytavern-extension/source-isolation-lease.js:20-65 | succeeds exactly when every authorised entry has an order, text and a grant for its very message; lists their sources in trace order |
| SourceIsolation.LocateSource | tavern-mnemosyne/integrations/sillytavern-extension/source-isolation-lease.js:175-207 | succeeds exactly when the source occurs once and its placeholder nowhere; says which of the two failed |
| SourceIsolation.LocatedPlaceable | tavern-mnemosyne/integrations/sillytavern-extension/source-isolation-lease.js:188-208 | located sources that do not overlap have different orders, so different placeholders, and can all be replaced |
| SourceIsolation.CreateLease | tavern-mnemosyne/integrations/sillytavern-extension/source-isolation-lease.js:151-226 | granted exactly when every authorised source is isolatable, found once with an unused placeholder and apart from the others; every authorised entry's text, the whole content of its internal message, is then gone from where it stood, its placeholder standing there; drift cannot occur |
| SourceIsolation.AuthorizedInOrder | tavern-mnemosyne/integrations/sillytavern-extension/source-isolation-lease.js:20-30 | the authorised entries are exactly those with the removal policy, each once and in trace order |
| SourceIsolation.OnlySourcesLeave | tavern-mnemosyne/integrations/sillytavern-extension/source-isolation-lease.js:121-149 | nothing else changes: a character of a message that no authorised source covers is still in what the host is handed, and what is new there are the placeholders |
| SourceIsolation.RestoreLease | tavern-mnemosyne/integrations/sillytavern-extension/source-isolation-lease.js:228-304 | succeeds exactly when every placeholder is found once when its turn comes and none is left over; an undisturbed lease always succeeds and gives the original messages; each source is put back once, where its placeholder stood; there is one receipt per source, with its identifier, order, digest, label and length, and they ascend by internal order |
| SourceIsolation.PathUnique | tavern-mnemosyne/integrations/sillytavern-extension/source-isolation-lease.js:245-277 | there is one way to put the sources back, whatever the host made of the messages |
| IsolationReceipts.ReceiptSlicesIff | tavern-mnemosyne/integrations/sillytavern-extension/source-isolation-lease.js:260-276 | a receipt slices the restored message to its source if and only if the sources restored later do not shift it |
| IsolationReceipts.ReceiptsLeftToRight | tavern-mnemosyne/integrations/sillytavern-extension/source-isolation-lease.js:260-276 | when the lease lists sources left to right in each message, every receipt is its source's original span |
| IsolationReceipts.ReceiptDriftExample | tavern-mnemosyne/integrations/sillytavern-extension/source-isolation-lease.js:151-226 | a prompt "ab" with authorised sources "b" and "a", in this order, is granted a lease |
| IsolationReceipts.ReceiptDrift | tavern-mnemosyne/integrations/sillytavern-extension/source-isolation-lease.js:260-276 | restoring that lease reports the first source beyond the end of its message |
| FenceLease.FenceEntries | tavern-mnemosyne/integrations/sillytavern-extension/runtime.js:3083-3142 | succeeds exactly when each candidate still has its exact text and digest at its span and its markers are unused; otherwise names a candidate that drifted or collides |
| FenceLease.CreateLease | tavern-mnemosyne/integrations/sillytavern-extension/runtime.js:3051-3191 | granted exactly when the run is named, the nonce leaves an id, every candidate is in place with unused markers and the spans are apart; the fenced messages have exactly these spans wrapped; each refusal has its cause |
| FenceLease.CandidatesInOrder | tavern-mnemosyne/integrations/sillytavern-extension/runtime.js:3069-3076 | the fenced sources are exactly the retained author sources with a component and a mapping, each once and in trace order |
| FenceText.WrapsAreMarks | tavern-mnemosyne/integrations/sillytavern-extension/runtime.js:3152-3178 | rewriting each span with its markers around it is the same as inserting the markers alone |
| FenceText.InverseRestores | tavern-mnemosyne/integrations/sillytavern-extension/runtime.js:3278-3300 | erasing every inserted marker where it landed gives the original text back |
| FenceRestore.ObserveFence | tavern-mnemosyne/integrations/sillytavern-extension/runtime.js:3211-3254 | succeeds exactly when both markers occur once, in one message, in order, around a body, under the source's role and name; missing and ambiguous markers are told apart exactly |
| FenceRestore.EraseMarkers | tavern-mnemosyne/integrations/sillytavern-extension/runtime.js:3255-3300 | succeeds exactly when the fences do not overlap; the result is the host output with exactly the marker occurrences erased |
| FenceRestore.BodySpanOf | tavern-mnemosyne/integrations/sillytavern-extension/runtime.js:3302-3312 | the span computed from the lengths of removed markers is where the body ends up |
| FenceRestore.RestoreLease | tavern-mnemosyne/integrations/sillytavern-extension/runtime.js:3193-3374 | for every host output: success exactly when the lease is restorable, and then the messages are the output with the markers erased and every override slices them to exactly what stood between its markers |
| FenceRestore.OutcomeUnique | tavern-mnemosyne/integrations/sillytavern-extension/runtime.js:3193-3374 | there is one way to restore: observed markers, erased messages and spans are determined by the host output |
| FenceRestore.RestorationFacts | tavern-mnemosyne/integrations/sillytavern-extension/runtime.js:3302-3368 | on success the overrides are pairwise disjoint, slice to their bodies and stand in internal order |
| FenceUndisturbed.UndisturbedRestorable | tavern-mnemosyne/integrations/sillytavern-extension/runtime.js:3193-3374 | with an unchanged host output, restoration succeeds if and only if every source stands in a message of its role and name and the sources stand in internal order, no order used twice |
| FenceUndisturbed.UndisturbedIsOriginal | tavern-mnemosyne/integrations/sillytavern-extension/runtime.js:3193-3374 | it then gives the original messages and reports every source at its original span |
| PromptTransform.FencedOnce | tavern-mnemosyne/integrations/sillytavern-extension/runtime.js:3051-3191 | the fenced messages and lease are determined by the prompt, the trace, the run and the nonce |
| PromptTransform.Leases.OnPromptReady | tavern-mnemosyne/integrations/sillytavern-extension/index.js:4366-4426 | fences and then isolates, or fails and leaves no lease; succeeds exactly when no lease is active, both leases can be granted and an authorised run got one |
| PromptTransform.Leases.OnSettingsReady | tavern-mnemosyne/integrations/sillytavern-extension/index.js:4527-4601 | clears both leases whatever happens; when the host changed nothing, restoring isolation and then fences succeeds exactly when the fences are reversible and gives the original messages, every override at its source's original span |
| PromptTransform.TakeFencesOff | tavern-mnemosyne/integrations/sillytavern-extension/index.js:4552-4564 | success exactly when restorable; for an undisturbed prompt exactly when reversible, with the original messages |
| PromptTransform.ReversedSourcesFenced | tavern-mnemosyne/integrations/sillytavern-extension/runtime.js:3051-3191 | fences are put around "b" and "a" of a prompt "ab" although their internal order is the other way round |
| PromptTransform.ReversedSourcesStuck | tavern-mnemosyne/integrations/sillytavern-extension/runtime.js:3347-3368 | these fences can never be taken off, not even from an unchanged prompt |
| FencedTrace.UndisturbedOverridesAccepted | tavern-mnemosyne/integrations/sillytavern-extension/runtime.js:5335-5427 | the overrides of an undisturbed fence are always accepted by the trace whose sources were fenced |
| TraceGrants.GrantIff | tavern-mnemosyne/integrations/sillytavern-extension/runtime.js:4823-4891 | a source is granted exactly when one authorisation alone is for its identifier and label and that one was given for this very message; it is removed exactly if it is an author source besides; several authorisations, or one for another message, are reported exactly as such |
| TraceGrants.OneToOneIff | tavern-mnemosyne/integrations/sillytavern-extension/runtime.js:5508-5545 | removals and authorisations correspond one to one exactly when no two authorisations share an id and each removes exactly one message |
| TraceEntries.SoundUpdate | tavern-mnemosyne/integrations/sillytavern-extension/runtime.js:4898-5449 | one more faithful mapping that crosses no other keeps the trace invariant |
| TraceWholeMessages.AmbiguousShapes | tavern-mnemosyne/integrations/sillytavern-extension/runtime.js:4898-4912 | finds exactly the messages that occur for different sources |
| TraceWholeMessages.MatchWholeMessages | tavern-mnemosyne/integrations/sillytavern-extension/runtime.js:4893-4933 | the k-th occurrence of an internal message takes the k-th equal provider message, unless equal messages stand for different sources; nothing else changes |
| TraceWholeMessages.MappedIffPaired | tavern-mnemosyne/integrations/sillytavern-extension/runtime.js:4914-4933 | an entry ends up at a provider message if and only if both are the same message, the same number of times into their lists, and not ambiguous |
| TraceWholeMessages.WholeMessagesSound | tavern-mnemosyne/integrations/sillytavern-extension/runtime.js:4914-4933 | the first pass establishes the trace invariant |
| TraceSpans.SoleIffOneClaim | tavern-mnemosyne/integrations/sillytavern-extension/runtime.js:4973-4996 | a span has one claimant exactly when no other unmapped entry has the same text |
| TraceSpans.SettleSpan | tavern-mnemosyne/integrations/sillytavern-extension/runtime.js:4982-5013 | an entry is mapped exactly when its text occurs once, no other unmapped entry has it and no mapping reaches across; otherwise it stays, flagged ambiguous if the text occurs |
| TraceSpans.MatchSpans | tavern-mnemosyne/integrations/sillytavern-extension/runtime.js:4951-5013 | every entry is settled in internal order, against those settled before it |
| TraceSpans.SpansSound | tavern-mnemosyne/integrations/sillytavern-extension/runtime.js:4951-5013 | the second pass keeps the trace invariant |
| TraceHistory.AnchorEndsFirstRun | tavern-mnemosyne/integrations/sillytavern-extension/runtime.js:5032-5053 | the anchor is the end of the first run of mapped history, and there is one as soon as any history is mapped |
| TraceHistory.HistoryElement | tavern-mnemosyne/integrations/sillytavern-extension/runtime.js:5015-5031 | the history entries are exactly the retained recent-chat entries with a positive chat-history ordinal |
| TraceHistory.MatchIff | tavern-mnemosyne/integrations/sillytavern-extension/runtime.js:5072-5136 | a provider message matches a history entry exactly when it has its role and name, nobody else is mapped into it, and it equals the internal message, is a proper non-empty start of it (assistant only), or holds it exactly once inside, in this order of preference |
| TraceHistory.MatchFaithful | tavern-mnemosyne/integrations/sillytavern-extension/runtime.js:5072-5136 | a coordinate match slices the provider message to the internal text, or to a non-empty start of it, under the entry's role and name |
| TraceHistory.BindSuffix | tavern-mnemosyne/integrations/sillytavern-extension/runtime.js:5137-5168 | matches each entry from the anchor on with the first provider message after the previous match that can stand for it; stops exactly where none can |
| TraceHistory.BindPrefix | tavern-mnemosyne/integrations/sillytavern-extension/runtime.js:5169-5202 | matches entries before the anchor with the last provider message before the next match that can stand for it, until none can |
| TraceAlignment.MatchHistory | tavern-mnemosyne/integrations/sillytavern-extension/runtime.js:5015-5220 | all or nothing from the anchor on: without a contiguous, fully bound suffix nothing changes, otherwise exactly the unmapped entries with a match take it |
| TraceAlignment.AlignedInOrder | tavern-mnemosyne/integrations/sillytavern-extension/runtime.js:5137-5219 | aligned history stands in the provider prompt in the order of its ordinals |
| TraceAlignment.HistoryMatchedOnce | tavern-mnemosyne/integrations/sillytavern-extension/runtime.js:5015-5220 | the alignment is determined: there is one outcome for every input |
| TraceAlignment.HistorySound | tavern-mnemosyne/integrations/sillytavern-extension/runtime.js:5015-5220 | the third pass keeps the trace invariant |
| TraceSuffixes.OneProvider | tavern-mnemosyne/integrations/sillytavern-extension/runtime.js:5231-5304 | a reply can be cut short in one provider message only |
| TraceSuffixes.CandidateIff | tavern-mnemosyne/integrations/sillytavern-extension/runtime.js:5231-5304 | a reply is a candidate exactly when it is unmapped recent chat and the assistant message between its mapped user neighbours holds all of it but a suffix of 1 to 1024 characters without NUL |
| TraceSuffixes.CollectedCommon | tavern-mnemosyne/integrations/sillytavern-extension/runtime.js:5305-5318 | the set sizes compared say exactly: at least two replies are cut short, all by one suffix, in different provider messages |
| TraceSuffixes.MatchSuffixes | tavern-mnemosyne/integrations/sillytavern-extension/runtime.js:5222-5333 | exactly then the cut replies whose provider message nobody else holds are mapped to it; otherwise nothing changes |
| TraceSuffixes.SuffixesSound | tavern-mnemosyne/integrations/sillytavern-extension/runtime.js:5222-5333 | the fourth pass keeps the trace invariant |
| TraceOverrides.CrossedLater | tavern-mnemosyne/integrations/sillytavern-extension/runtime.js:5384-5395 | with earlier overrides applied, a span is crossed exactly by what crossed it before or by one of those overrides |
| TraceOverrides.ApplyOverrides | tavern-mnemosyne/integrations/sillytavern-extension/runtime.js:5335-5427 | accepted exactly when each override fits its source and they have different sources and disjoint spans, whatever their order; exactly the overridden entries change; the first one not accepted decides between the two errors |
| TraceOverrides.OverridesSound | tavern-mnemosyne/integrations/sillytavern-extension/runtime.js:5335-5427 | the fifth pass keeps the trace invariant |
| PromptTrace.MapEntries | tavern-mnemosyne/integrations/sillytavern-extension/runtime.js:4898-5333 | runs the passes in order and ends with a sound trace |
| PromptTrace.PassesSound | tavern-mnemosyne/integrations/sillytavern-extension/runtime.js:4898-5333 | the trace invariant holds after every single pass |
| PromptTrace.PassesKeep | tavern-mnemosyne/integrations/sillytavern-extension/runtime.js:4898-5333 | no pass changes what an entry says of its source: order, identifier, role, name, label, policy, grant and component |
| PromptTrace.BuildTrace | tavern-mnemosyne/integrations/sillytavern-extension/runtime.js:4769-5545 | fails on overrides exactly when they are not acceptable, and on removal evidence exactly when then the removals and the authorisations do not correspond one to one, said in terms of origins and authorisations; a returned trace is sound and keeps the source, policy, grant and component of every entry |
| PromptTrace.SoundSlices | tavern-mnemosyne/integrations/sillytavern-extension/runtime.js:4898-5449 | every exact, content-span or stable-history-span mapping slices to exactly the internal text, every prefix or suffix mapping to a non-empty start of it |
| PromptTrace.SoundDisjoint | tavern-mnemosyne/integrations/sillytavern-extension/runtime.js:4898-5449 | no character of a provider message belongs to the mappings of two entries |
| Forwarding.CollectCuts | tavern-mnemosyne/integrations/sillytavern-extension/runtime.js:4519-4563 | succeeds exactly when every removal has a valid grant and a span inside its message; one cut per removal, in trace order; the first removal that has not decides the error |
| Forwarding.CutMessage | tavern-mnemosyne/integrations/sillytavern-extension/runtime.js:4573-4587 | fails exactly when two spans overlap; otherwise leaves exactly the characters outside them |
| Forwarding.AllLeftwards | tavern-mnemosyne/integrations/sillytavern-extension/runtime.js:4575-4582 | testing each span against the previous start, message by message, misses no overlap |
| Forwarding.CutMessages | tavern-mnemosyne/integrations/sillytavern-extension/runtime.js:4570-4593 | succeeds exactly on disjoint spans; keeps exactly the messages that lost nothing or still hold text |
| Forwarding.TraceCutsDisjoint | tavern-mnemosyne/integrations/sillytavern-extension/runtime.js:4492-4594 | the spans a sound trace asks to remove never overlap |
| Forwarding.ExpectedMessages | tavern-mnemosyne/integrations/sillytavern-extension/runtime.js:4492-4594 | on a sound trace it succeeds exactly when every removal has valid evidence and a non-empty span; the result is the messages in order, each without the characters inside the mappings of removed entries, those dropped left out that lost some and are blank now |
| Forwarding.ErasedIsLeft | tavern-mnemosyne/integrations/sillytavern-extension/runtime.js:4571-4587 | what is left of a message is exactly its characters outside the mappings of all removed entries, in order |
| Forwarding.LeftLength | tavern-mnemosyne/integrations/sillytavern-extension/runtime.js:4571-4587 | on a sound trace its length is that of the message less the lengths of the mappings of removed entries |
| Forwarding.StretchSurvives | tavern-mnemosyne/integrations/sillytavern-extension/runtime.js:4571-4587 | any stretch of a message that no removed mapping touches is found verbatim in what is left, and two such stretches stay in order |
| Forwarding.ForwardedAt | tavern-mnemosyne/integrations/sillytavern-extension/runtime.js:4588-4591 | a message is forwarded exactly unless something was taken from it and only white space is left |
| Forwarding.SegmentSurvives | tavern-mnemosyne/integrations/sillytavern-extension/runtime.js:4571-4587 | every retained segment is found verbatim in what is left of its message |
| Forwarding.SegmentForwarded | tavern-mnemosyne/integrations/sillytavern-extension/runtime.js:4570-4593 | a retained segment that is not white space is forwarded verbatim |
| Forwarding.KeptAt | tavern-mnemosyne/integrations/sillytavern-extension/runtime.js:4588-4591 | a message that is not dropped is forwarded, at the place given by the kept ones before it |
| Forwarding.KeptOnly | tavern-mnemosyne/integrations/sillytavern-extension/runtime.js:4588-4591 | every forwarded message comes from one that was not dropped |
| Forwarding.WhiteSpaceLost | tavern-mnemosyne/integrations/sillytavern-extension/runtime.js:4588-4590 | in "\nx" with the line break retained and "x" removed, nothing is forwarded |
| MessageMerge.MergeNeighbours | tavern-mnemosyne/integrations/sillytavern-extension/runtime.js:3553-3566 | the loop that extends the last message computes the recursive merge |
| MessageMerge.MergeMessages | tavern-mnemosyne/integrations/sillytavern-extension/runtime.js:3478-3619 | both merges, the placeholder rules and the recursive call compute the specified transformation |
| MessageMerge.PreparedAgain | tavern-mnemosyne/integrations/sillytavern-extension/runtime.js:3612-3618 | the recursive call of a strict mode finds nothing left to prepare |
| MergeFacts.MergedJoined | tavern-mnemosyne/integrations/sillytavern-extension/runtime.js:3553-3566 | merging conserves the text, empty messages included |
| MergeFacts.TextConserved | tavern-mnemosyne/integrations/sillytavern-extension/runtime.js:3478-3619 | without a placeholder the output texts joined by blank lines are the prepared inputs joined by blank lines, in every mode; what preparing does is told by `Speakers.SpeakerLaw` |
| MergeFacts.OpenedWhere | tavern-mnemosyne/integrations/sillytavern-extension/runtime.js:3594-3611 | the placeholder is one user message in front of the conversation, behind a leading system message; nothing else changes |
| Speakers.SpeakerLaw | tavern-mnemosyne/integrations/sillytavern-extension/runtime.js:3489-3552 | each prepared text is the original, behind "speaker: " unless it starts with that already or nobody is to be named; example messages speak for the character and the user, named messages for their name, in `single` mode every message for its role; each role and mode gives the stated role |
| Speakers.ToldIsConserved | tavern-mnemosyne/integrations/sillytavern-extension/runtime.js:3478-3619 | without a placeholder the merged texts joined by blank lines are the texts told that way |
| MergeFacts.RolesAlternate | tavern-mnemosyne/integrations/sillytavern-extension/runtime.js:3553-3566 | with text in every message no message follows one of its own role, tools aside |
| MergeFacts.StrictShape | tavern-mnemosyne/integrations/sillytavern-extension/runtime.js:3594-3618 | strict mode with placeholders gives an optional system message and then user and assistant in turn, the user first |
| MergeFacts.MergedTwice | tavern-mnemosyne/integrations/sillytavern-extension/runtime.js:3553-3566 | merging is idempotent exactly on messages without an empty one between two of its role |
| MergeFacts.LenientTwice | tavern-mnemosyne/integrations/sillytavern-extension/runtime.js:3478-3594 | a mode without strictness is idempotent exactly when the prepared messages have no such gap |
| MergeFacts.StrictTwice | tavern-mnemosyne/integrations/sillytavern-extension/runtime.js:3594-3618 | a strict mode is idempotent exactly when its second merge met no such gap |
| MergeFacts.TextTwice | tavern-mnemosyne/integrations/sillytavern-extension/runtime.js:3478-3619 | with text in every message every mode but `single` is idempotent |
| MergeFacts.EmptyMessageNotIdempotent | tavern-mnemosyne/integrations/sillytavern-extension/runtime.js:3553-3566 | "a", "" and "b" of one speaker merge to two messages, and only the second time to one |
| DryFrameMarker.InspectText | tavern-mnemosyne/integrations/sillytavern-extension/runtime.js:2184-2206 | passes exactly when the opening occurs once and the pattern matches there; says none exactly when it matches nowhere |
| DryFrameMarker.InspectFrames | tavern-mnemosyne/integrations/sillytavern-extension/runtime.js:2164-2207 | inspects all texts joined by line breaks |
| DryFrameMarker.PrintedMatches | tavern-mnemosyne/integrations/sillytavern-extension/runtime.js:2157-2161 | the pattern matches exactly where a tag with two safe identities stands, and reads back the frame and owner it was printed with, each in its place |
| DryFrameMarker.FrameFound | tavern-mnemosyne/integrations/sillytavern-extension/runtime.js:2146-2207 | a printed frame put anywhere into messages without an opening is found, with its identities |
| ForeignDryFrames.Coordinator.Begin | tavern-mnemosyne/integrations/sillytavern-extension/runtime.js:2243-2275 | begins exactly for a named owner that holds the pending frames, with safe identities; remembers the slots before the first frame; inspecting the slots it wrote finds this frame and this owner |
| ForeignDryFrames.Coordinator.Find | tavern-mnemosyne/integrations/sillytavern-extension/runtime.js:2277-2284 | finds a frame exactly when it is pending under this id, run and marker object |
| ForeignDryFrames.Coordinator.Settle | tavern-mnemosyne/integrations/sillytavern-extension/runtime.js:2286-2303 | takes exactly the named frame; writes the slots only when that frame owned them |
| ForeignDryFrames.Coordinator.SettleAll | tavern-mnemosyne/integrations/sillytavern-extension/runtime.js:2305-2311 | drops all frames of the owner and restores the slots only if a pending frame owned them |
| ForeignDryFrames.Coordinator.Reset | tavern-mnemosyne/integrations/sillytavern-extension/runtime.js:2313-2317 | drops all frames, restoring only when asked and owned |
| ForeignDryFrames.SettledIsRestored | tavern-mnemosyne/integrations/sillytavern-extension/runtime.js:2222-2331 | over every undisturbed run of begin, settle and settleAll, in any order: once no frame is pending the slots hold their first value |
| ForeignDryFrames.ForeignSurvives | tavern-mnemosyne/integrations/sillytavern-extension/runtime.js:2286-2317 | a value no pending frame owns survives every operation but a new frame |
| ForeignDryFrames.ForeignWriteStands | tavern-mnemosyne/integrations/sillytavern-extension/runtime.js:2286-2317 | no settlement ever overwrites a foreign write, however many follow |
| ForeignDryFrames.SettleTakesOne | tavern-mnemosyne/integrations/sillytavern-extension/runtime.js:2286-2303 | with unique ids settling takes exactly one frame, and ids stay unique |
| HistoryGuard.CreateSpec | tavern-mnemosyne/integrations/sillytavern-extension/history-invalidation-guard.js:149-176 | accepted exactly on valid ids, reason, epoch and coordinates; the guard is valid, has the request's coordinates, host length and chat, nothing applied, and holds one command for the request |
| HistoryGuard.ValidIff | tavern-mnemosyne/integrations/sillytavern-extension/history-invalidation-guard.js:42-128 | a valid guard is in one of two states: a command outstanding, at or behind the desired cutoff and for the known epoch, or the desired cutoff applied and no command; coordinates inside the host history in both |
| HistoryGuard.MergeSpec | tavern-mnemosyne/integrations/sillytavern-extension/history-invalidation-guard.js:178-242 | an acceptable request always merges into a valid guard; it wins exactly when lexicographically smaller, and then the larger host length is kept; an outstanding command stays as it was, otherwise a lowered cutoff gets one on the current epoch |
| HistoryGuard.MergeRefused | tavern-mnemosyne/integrations/sillytavern-extension/history-invalidation-guard.js:178-242 | a merge is refused for an invalid guard, else for coordinates outside the histories, else exactly for a bad id where a command is due |
| HistoryGuard.AdvanceSpec | tavern-mnemosyne/integrations/sillytavern-extension/history-invalidation-guard.js:272-296 | after an answer the guard is valid on the new epoch, done or with one command for the earlier cutoff |
| HistoryGuard.Reconcile | tavern-mnemosyne/integrations/sillytavern-extension/history-invalidation-guard.js:244-302 | from any valid guard: at most two sends, each the command stored at that moment, every stored guard valid, never the attempt limit; with valid answers it ends without a command and with applied equal to desired cutoff |
| HistoryRequests.AcceptedIff | tavern-mnemosyne/integrations/sillytavern-extension/history-invalidation-guard.js:178-302 | a step is accepted exactly when its coordinates, epoch and needed id are valid, and leaves a valid guard |
| HistoryRequests.RunKeepsValid | tavern-mnemosyne/integrations/sillytavern-extension/history-invalidation-guard.js:42-242 | every accepted run of merges and completions keeps the full guard invariant |
| HistoryRequests.WantsMinimum | tavern-mnemosyne/integrations/sillytavern-extension/history-invalidation-guard.js:178-242 | the desired coordinate is the lexicographic minimum of all requests, with the reason of the first that asked for it |
| HistoryRequests.KnowsMaximum | tavern-mnemosyne/integrations/sillytavern-extension/history-invalidation-guard.js:178-242 | the guard knows the longest chat that a winning request came from, and keeps its own chat |
| HistoryRequests.InsideIsAccepted | tavern-mnemosyne/integrations/sillytavern-extension/history-invalidation-guard.js:189-202 | so every cutoff inside a chat that won once stays acceptable for the rest of the run |
| HistoryRequests.OrderDoesNotMatter | tavern-mnemosyne/integrations/sillytavern-extension/history-invalidation-guard.js:178-242 | two runs that saw the same coordinates, in whatever order, want the same coordinate |
| HistoryResolution.HistoryStore.EnsurePending | tavern-mnemosyne/integrations/sillytavern-extension/index.js:1846-1904 | creates or merges the pending edit; what is stored afterwards is what is returned, and a refusal stores nothing |
| HistoryResolution.HistoryStore.ReconcilePending | tavern-mnemosyne/integrations/sillytavern-extension/index.js:2109-2135 | the stored guard stays valid and keeps its desired coordinate, also on failure; success leaves it settled |
| HistoryResolution.HistoryStore.LowerAndReconcile | tavern-mnemosyne/integrations/sillytavern-extension/index.js:2353-2374 | follows a shortened chat: on success the stored guard is settled at exactly the chat length |
| HistoryResolution.HistoryStore.Settle | tavern-mnemosyne/integrations/sillytavern-extension/index.js:3606-3635 | drops the guard and records the checkpoint in one write |
| HistoryResolution.HistoryStore.Resolve | tavern-mnemosyne/integrations/sillytavern-extension/index.js:2344-2402 | every continue strictly decreases (release length, command outstanding); with a stable chat length it decides by the second iteration; clears only a settled guard whose release length is the chat length, with that chat as checkpoint |
| HistoryProtocol.ServeOnce | tavern-mnemosyne/integrations/sillytavern-extension/index.js:2066-2076 | a served command is new, becomes the latest and raises the epoch |
| HistoryProtocol.NextKeeps | tavern-mnemosyne/integrations/sillytavern-extension/index.js:1846-2135 | every step keeps the protocol invariant: create, merge, send, deliver (late or repeated), receive, persist, crash, settle |
| HistoryProtocol.ProtocolSafety | tavern-mnemosyne/integrations/sillytavern-extension/index.js:1846-2135 | over every run: nothing is sent that was not persisted before, an id names one command, the service applies each id at most once, and an unapplied command expects the current epoch |
| HistoryProtocol.EpochTracked | tavern-mnemosyne/integrations/sillytavern-extension/history-invalidation-guard.js:244-302 | over every run the stored guard's epoch, or that of its command, follows the service's |
| HistoryProtocol.LoweringKeepsCommand | tavern-mnemosyne/integrations/sillytavern-extension/history-invalidation-guard.js:217-237 | a request merged while a command is outstanding leaves that command to be resent with its id |
| HistoryProtocol.CanComplete | tavern-mnemosyne/integrations/sillytavern-extension/index.js:2109-2135 | from every reachable state with a command outstanding a restart can complete it, and the stored guard then holds its outcome |
| HistoryObserver.FindCutoff | tavern-mnemosyne/integrations/sillytavern-extension/runtime.js:878-909 | finds where the chat first departs from what is remembered, a missing end included, or that it still extends it |
| HistoryObserver.FindUngoverned | tavern-mnemosyne/integrations/sillytavern-extension/runtime.js:1666-1702 | finds the first assistant message after the governed part, if any |
| HistoryObserver.Observe | tavern-mnemosyne/integrations/sillytavern-extension/history-invalidation-observer.js:53-245 | reports nothing exactly when checkpoint, suffix and snapshot are intact; otherwise the earliest trouble, released one further exactly for an edited user or system message, with the longest of the known lengths, and always a coordinate a new guard accepts |
| HistoryObserver.ObservedIsCreated | tavern-mnemosyne/integrations/sillytavern-extension/history-invalidation-observer.js:217-237 | every observed coordinate is accepted when no guard is pending |
| HistoryObserver.ObservedIsMerged | tavern-mnemosyne/integrations/sillytavern-extension/history-invalidation-observer.js:217-237 | with a guard pending it is accepted if and only if the cutoff lies inside the history that guard knows |
| HistoryObserver.LaterReplyRefused | tavern-mnemosyne/integrations/sillytavern-extension/history-invalidation-guard.js:189-202 | a guard from a chat of one message refuses a reply found at index two |
| Octal.ParsePrinted | tavern-mnemosyne/integrations/sillytavern-extension/browser-folder-provisioning.js:315-326 | a number printed in octal with NUL or space terminators is read back |
| Octal.ParseIff | tavern-mnemosyne/integrations/sillytavern-extension/browser-folder-provisioning.js:315-326 | a field parses exactly when it holds, apart from NULs, octal digits with white space around them, and its number is theirs |
| RuntimeTar.HeaderChecksum | tavern-mnemosyne/integrations/sillytavern-extension/browser-folder-provisioning.js:328-334 | sums the header with its checksum field counted as spaces |
| RuntimeTar.ChecksumFits | tavern-mnemosyne/integrations/sillytavern-extension/browser-folder-provisioning.js:328-334 | a header sum always fits six octal digits |
| RuntimeTar.HeaderReadBack | tavern-mnemosyne/integrations/sillytavern-extension/browser-folder-provisioning.js:347-371 | a written header is read back as its name and size, and is never taken for the end |
| RuntimeTar.ParseRuntimeTar | tavern-mnemosyne/integrations/sillytavern-extension/browser-folder-provisioning.js:342-384 | for every byte sequence the loop, advancing by at least one block each time, ends with the specified files or error; an archive written from distinct files gives back exactly these files |
| RuntimeTar.ReadArchive | tavern-mnemosyne/integrations/sillytavern-extension/browser-folder-provisioning.js:342-384 | reading any archive of distinct safe ASCII names of 1 to 100 characters and contents under 8^11 bytes gives back exactly these files; contents may hold zero blocks, unused header fields anything, and anything may follow the end |
| RuntimeTar.NestedFileRead | tavern-mnemosyne/integrations/sillytavern-extension/browser-folder-provisioning.js:342-384 | a file in nested folders is read back, whatever the folders are called apart from "", "." and ".." |
| RuntimeTar.ContentsHold | tavern-mnemosyne/integrations/sillytavern-extension/browser-folder-provisioning.js:380-383 | the map holds exactly the archived names with their contents |
| Paths.JoinedSplit | tavern-mnemosyne/integrations/sillytavern-extension/browser-folder-provisioning.js:114-129 | joining the parts of a path at the separator gives the path |
| Paths.SafeIff | tavern-mnemosyne/integrations/sillytavern-extension/browser-folder-provisioning.js:114-129 | a name made of parts is safe exactly when no part is empty, "." or ".." and the first is no drive |
| ConfigLines.FindComment | tavern-mnemosyne/integrations/sillytavern-extension/browser-folder-provisioning.js:252-269 | the scanner finds the first hash sign outside quotes |
| ConfigLines.ParseSettingIff | tavern-mnemosyne/integrations/sillytavern-extension/browser-folder-provisioning.js:245-274 | exactly the lines made of the key, bare or in quotes of one kind, white space, a colon and one line of anything set the key; what is kept is all up to the colon, and the comment |
| ConfigLines.RewrittenAgain | tavern-mnemosyne/integrations/sillytavern-extension/browser-folder-provisioning.js:303-307 | a rewritten line still sets the same key with the same comment, so rewriting it again changes nothing |
| ConfigLines.OneKeyPerLine | tavern-mnemosyne/integrations/sillytavern-extension/browser-folder-provisioning.js:245-251 | no line sets both keys, although one is a prefix of the other |
| ConfigSettings.WriteKeys | tavern-mnemosyne/integrations/sillytavern-extension/browser-folder-provisioning.js:287-311 | the loop over both keys computes the specified lines, or reports a duplicate key |
| ConfigSettings.SetKeysTwice | tavern-mnemosyne/integrations/sillytavern-extension/browser-folder-provisioning.js:287-311 | setting both keys a second time changes nothing |
| ConfigSettings.OtherLinesKept | tavern-mnemosyne/integrations/sillytavern-extension/browser-folder-provisioning.js:287-311 | every line that sets neither key is kept in its place; the others are rewritten and missing keys appended |
| ConfigRewrite.RewriteServerPluginConfig | tavern-mnemosyne/integrations/sillytavern-extension/browser-folder-provisioning.js:276-313 | rewrites the text with the line ends of the source; rewriting the result again gives it back if and only if the source has no stray carriage return |
| ConfigRewrite.LinesOfText | tavern-mnemosyne/integrations/sillytavern-extension/browser-folder-provisioning.js:283-286 | a text joined from lines splits into them again, trailing newline included |
| ConfigRewrite.IdempotentIff | tavern-mnemosyne/integrations/sillytavern-extension/browser-folder-provisioning.js:276-313 | rewriting is idempotent if and only if the source has no stray carriage return at its end with a key missing |
| ConfigRewrite.LoneReturn | tavern-mnemosyne/integrations/sillytavern-extension/browser-folder-provisioning.js:283-312 | a text of just a carriage return is rewritten, and its rewriting is rewritten into something else |
| ConfigRewrite.StrayReturnNotIdempotent | tavern-mnemosyne/integrations/sillytavern-extension/browser-folder-provisioning.js:283-312 | with one, the second rewriting changes the text or fails |
| FolderInstall.Folder.Write | tavern-mnemosyne/integrations/sillytavern-extension/browser-folder-provisioning.js:188-217 | a failing write leaves the file as it was, newly created and empty, or complete |
| FolderInstall.Folder.EnsureBackup | tavern-mnemosyne/integrations/sillytavern-extension/browser-folder-provisioning.js:685-706 | success leaves the old text under its hash; an existing backup is compared, never written; a write that failed after creating the file leaves it empty |
| FolderInstall.Folder.Install | tavern-mnemosyne/integrations/sillytavern-extension/browser-folder-provisioning.js:867-939 | config.yaml is unchanged, or rewritten with backup, bootstrap, binding and runtime config already on disk; files of other installations stay; it completes exactly when the folder is valid, the text can be rewritten, no other bytes stand where its backup belongs and no step fails, and then leaves the receipt and no staged copies |
| FolderInstall.Folder.Provision | tavern-mnemosyne/integrations/sillytavern-extension/browser-folder-provisioning.js:762-960 | the same for one whole attempt under a failure or crash at any step; a failed attempt leaves its failure receipt whenever that write succeeds; it counts as crashed only if a step crashed |
| FolderInstall.InstallsAreSafe | tavern-mnemosyne/integrations/sillytavern-extension/browser-folder-provisioning.js:762-960 | over every sequence of failing attempts on a text that is not rewritten twice, config.yaml is the original or its rewriting; rewritten implies a backup of the original and final files of some attempt |
| FolderInstall.UnsteadyDrifts | tavern-mnemosyne/integrations/sillytavern-extension/browser-folder-provisioning.js:834-915 | on a text that is rewritten twice, two completed installations leave neither the original nor its rewriting |
| FolderInstall.LoneReturnUnsteady | tavern-mnemosyne/integrations/sillytavern-extension/browser-folder-provisioning.js:834-915 | a text of just a carriage return is such a one |
| FolderInstall.BackupsStay | tavern-mnemosyne/integrations/sillytavern-extension/browser-folder-provisioning.js:685-706 | no backup is ever overwritten with different bytes |
| FolderInstall.ConfigIsBacked | tavern-mnemosyne/integrations/sillytavern-extension/browser-folder-provisioning.js:883-915 | without any condition on the text: config.yaml is the first text or the rewriting of one that is backed up |
| FolderInstall.EmptyBackupBlocks | tavern-mnemosyne/integrations/sillytavern-extension/browser-folder-provisioning.js:692-703 | a backup that does not hold its text keeps config.yaml from ever being replaced |
| WorldInfo.SortedPlaces | tavern-mnemosyne/integrations/sillytavern-extension/host-provenance-adapter.js:449-457 | sorting moves every entry to exactly one place |
| WorldInfo.SortedDescends | tavern-mnemosyne/integrations/sillytavern-extension/host-provenance-adapter.js:449-457 | sorted orders never rise |
| WorldInfo.AssemblyOrder | tavern-mnemosyne/integrations/sillytavern-extension/host-provenance-adapter.js:449-457 | higher orders come first, equal ones as they stood in the list |
| WorldInfo.RouteAscends | tavern-mnemosyne/integrations/sillytavern-extension/host-provenance-adapter.js:476-492 | along a route, built by putting entries in front, orders never fall |
| WorldInfoProvenance.ValidateComponent | tavern-mnemosyne/integrations/sillytavern-extension/host-provenance-adapter.js:230-310 | accepts exactly valid, sealed components of distinct sources with contiguous indices; a broken seal is reported exactly when nothing else is wrong, a route mismatch only for an identified selector off the component's route |
| WorldInfoProvenance.Normalize | tavern-mnemosyne/integrations/sillytavern-extension/host-provenance-adapter.js:366-399 | accepts exactly lists of valid components on distinct routes without a source selected twice; records each under its route; the errors for an ambiguous route, a duplicate selector and a broken seal have their cause |
| WorldInfoBuild.Gather | tavern-mnemosyne/integrations/sillytavern-extension/host-provenance-adapter.js:459-493 | succeeds exactly on valid, pairwise different entries and gathers each route's selectors, last entry first; otherwise the error names what is wrong with the entries |
| WorldInfoBuild.ValidEntryIff | tavern-mnemosyne/integrations/sillytavern-extension/host-provenance-adapter.js:459-475 | valid entries are named, hashed, and on the route their position, depth and role lead to |
| WorldInfoBuild.ValidSelectorIff | tavern-mnemosyne/integrations/sillytavern-extension/host-provenance-adapter.js:230-310 | the validator takes exactly the selectors that some valid entry on this route is turned into |
| WorldInfoBuild.BuildProvenance | tavern-mnemosyne/integrations/sillytavern-extension/host-provenance-adapter.js:439-513 | succeeds exactly on acceptable entries; the result always passes its own validator and comes in the order of route names |
| WorldInfoBuild.BuiltIsNormal | tavern-mnemosyne/integrations/sillytavern-extension/host-provenance-adapter.js:495-511 | what is built from accepted entries is always valid |
| WorldInfoBuild.EntrySelectedOnce | tavern-mnemosyne/integrations/sillytavern-extension/host-provenance-adapter.js:459-507 | every entry is selected by exactly one selector of one component, at the place its index says, with the entry's own identity, hashes, position, depth and role |
| WorldInfoBuild.GroupContents | tavern-mnemosyne/integrations/sillytavern-extension/runtime.js:2589-2653 | groups the non-empty contents of direct and depth routes, each put in front |
| WorldInfoBuild.SameAssemblyOrder | tavern-mnemosyne/integrations/sillytavern-extension/runtime.js:2589-2669 | selector order is exactly the order in which the budget plan concatenates the non-empty contents |
| PayloadMeasure.OneCarry | tavern-mnemosyne/src/contracts/continuity-payload.js:285-299 | adding a number's digit count carries into at most one digit more, and doing so again into none |
| PayloadMeasure.ConvergesInFour | tavern-mnemosyne/src/contracts/continuity-payload.js:285-302 | without a tokenizer the fourth measurement repeats the third |
| PayloadMeasure.ThreeAreNotEnough | tavern-mnemosyne/src/contracts/continuity-payload.js:285-302 | 98 bytes around the number need all four |
| PayloadMeasure.TwoFixedPoints | tavern-mnemosyne/src/contracts/continuity-payload.js:285-302 | 97 bytes around the number leave two sizes that state themselves |
| PayloadMeasure.Measure | tavern-mnemosyne/src/contracts/continuity-payload.js:280-302 | without a tokenizer the result is the least size that states itself; with one, a fixed point or the fourth estimate, or an invalid measurement |
| PayloadMeasure.Validate | tavern-mnemosyne/src/contracts/continuity-payload.js:410-444 | the sealed estimate is the measured one, without a tokenizer the byte length of the payload serialised with that very number; accepted exactly when the caps are valid and some self-stating size fits |
| PayloadMeasure.EffectiveCap | tavern-mnemosyne/src/contracts/continuity-payload.js:419-422 | the cap is 15 percent of the available room, rounded down, but never more than 2400 |
| GateCensus.EvictedGood | tavern-mnemosyne/integrations/sillytavern-extension/gate-census.js:57-62 | eviction happens at one record over the cap: 2049 go and one is added |
| GateCensus.PerformGood | tavern-mnemosyne/integrations/sillytavern-extension/gate-census.js:79-83 | whatever a caller-supplied function does, re-entering or throwing, the invariant holds |
| GateCensus.MarkGood | tavern-mnemosyne/integrations/sillytavern-extension/gate-census.js:87-129 | every mark keeps: at most 8192 records, also at every sink call, a contiguous run of the latest numbers, and issued = buffered + drained + dropped |
| GateCensus.Census.Mark | tavern-mnemosyne/integrations/sillytavern-extension/gate-census.js:87-129 | a mark does what the specification says, with a sink that re-enters it, and keeps the buffer invariant |
| GateCensus.Census.EnforceCapacity | tavern-mnemosyne/integrations/sillytavern-extension/gate-census.js:57-85 | evicts and records the eviction before the sink runs |
| GateCensus.Census.Drain | tavern-mnemosyne/integrations/sillytavern-extension/gate-census.js:131-134 | returns the buffer and empties it, keeping the invariant; nothing when disabled |

## Left out

- SHA-256 and canonical JSON: digests, seals and backup addresses are taken as injective.
- Media arrays as message contents, tool-call fields and other message properties: messages are role, name and text.
- Surrogate pairs: texts are sequences of characters, positions are character positions.
- Resolution of source labels, route overrides, component provenance of an entry and the host-history binding: their results are inputs of `PromptTrace.BuildTrace`.
- PromptTrace.BuildTrace: grants are taken as valid v3 evidence, since their validator and the source-coverage check are not part of this model.
- Forwarding.ExpectedMessages: whether a grant is valid evidence is a parameter, and the checks that the prompt is sealed (schema, run id, at least one message) are not modelled.
- The segment lists, provider labels and unresolved-source reports of a prompt trace: derived from the entries.
- The squashing of system messages before a merge.
- MessageMerge.MergeMessages: the replacement of media by tokens and back is not modelled.
- FolderInstall.Folder.Install: no outside writer, so the check that config.yaml changed meanwhile never fails; file handles, locks and the network are left out.
- RuntimeTar.ParseRuntimeTar: a name or number field with bytes above 127 is reported as not ASCII instead of being decoded as UTF-8.
- Decompression and the manifest check of the runtime archive.
- HistoryProtocol.ProtocolSafety: the service is assumed idempotent per command id, to compare and set on the expected epoch, and to raise its epoch with every truncation and by nothing else.
- HistoryProtocol.NextKeeps: persisting is one atomic write, and the replica in the chat metadata is not modelled; edits, reconciliation and settlement of one chat are serialised by the coordinator's lock.
- The repair of a guard left by a greeting, and the errors raised when the open chat changes.
- HistoryObserver.Observe: how a coordinate is compared with its variants is a parameter; malformed snapshots are not modelled.
- WorldInfoBuild.BuildProvenance: orders are integers, the locale order of route names is a parameter, and fixed components are not modelled.
- WorldInfoBuild.GroupContents: outlets and the formatting of the joined contents are not modelled.
- PayloadMeasure.Validate: only the budget part is modelled, not the shape checks before it, and the 15 percent share is computed on reals.
- The user interface, timers, localisation, requests to the service and the host's own code.
