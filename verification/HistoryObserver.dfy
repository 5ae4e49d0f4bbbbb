/** Noticing edits nobody reported: the chat is compared with its governed checkpoint and with the last snapshot in
    memory, and the earliest difference becomes a request (history-invalidation-observer.js, runtime.js). */
module HistoryObserver {
  import opened MessageSpans
  import opened PromptEntries
  import opened HistoryGuard
  import opened TextPatterns

  /** A message of the host chat, with the coordinate its snapshot entry is compared by. */
  datatype HostMessage = HostMessage(isUser: bool, isSystem: bool, coordinate: string)

  datatype Observation = RefreshBaseline | NewChatNeeded | Unchanged | Invalidate(request: Request)

  /** Whether a remembered coordinate and a current one stand for the same message. */
  type Matcher = (string, string) -> bool

  const EDITED := "host_message_edited"
  const DELETED := "host_message_deleted"

  lemma ReasonsAreValid()
    ensures ValidReason(EDITED) && ValidReason(DELETED)
  {
    var s, t := EDITED, DELETED;
    assert |s| == 19 && |t| == 20;
    assert s[0] == 'h' && s[1] == 'o' && s[2] == 's' && s[3] == 't' && s[4] == '_' && s[5] == 'm' && s[6] == 'e'
        && s[7] == 's' && s[8] == 's' && s[9] == 'a' && s[10] == 'g' && s[11] == 'e' && s[12] == '_' && s[13] == 'e'
        && s[14] == 'd' && s[15] == 'i' && s[16] == 't' && s[17] == 'e' && s[18] == 'd';
    assert t[0] == 'h' && t[1] == 'o' && t[2] == 's' && t[3] == 't' && t[4] == '_' && t[5] == 'm' && t[6] == 'e'
        && t[7] == 's' && t[8] == 's' && t[9] == 'a' && t[10] == 'g' && t[11] == 'e' && t[12] == '_' && t[13] == 'd'
        && t[14] == 'e' && t[15] == 'l' && t[16] == 'e' && t[17] == 't' && t[18] == 'e' && t[19] == 'd';
  }

  // ---- Comparing ----

  /** The chat agrees with the remembered messages up to `n`. */
  ghost predicate AgreesTo(remembered: seq<string>, chat: seq<HostMessage>, same: Matcher, n: int) {
    n <= |remembered| && n <= |chat| && forall i :: 0 <= i < n ==> same(remembered[i], chat[i].coordinate)
  }

  /** The chat still starts with everything remembered. */
  ghost predicate Extends(remembered: seq<string>, chat: seq<HostMessage>, same: Matcher) {
    AgreesTo(remembered, chat, same, |remembered|)
  }

  /** The length of the longest agreeing start. */
  ghost predicate Diverges(remembered: seq<string>, chat: seq<HostMessage>, same: Matcher, at: int) {
    0 <= at && AgreesTo(remembered, chat, same, at) && !AgreesTo(remembered, chat, same, at + 1) && at < |remembered|
  }

  method FindCutoff(remembered: seq<string>, chat: seq<HostMessage>, same: Matcher) returns (cutoff: Option<int>)
    ensures cutoff.None? <==> Extends(remembered, chat, same)
    ensures cutoff.Some? ==> Diverges(remembered, chat, same, cutoff.value)
  {
    var shared := if |remembered| < |chat| then |remembered| else |chat|;
    for index := 0 to shared
      invariant AgreesTo(remembered, chat, same, index)
    {
      if !same(remembered[index], chat[index].coordinate) { return Some(index); }
    }
    cutoff := if |chat| < |remembered| then Some(|chat|) else None;
  }

  predicate IsAssistant(m: HostMessage) {
    !m.isUser && !m.isSystem
  }

  /** The first assistant message after the governed part, if any. */
  ghost predicate FirstUngoverned(chat: seq<HostMessage>, governed: nat, at: int) {
    && governed <= at < |chat| && !chat[at].isUser && !chat[at].isSystem
    && forall i :: governed <= i < at ==> chat[i].isUser || chat[i].isSystem
  }

  method FindUngoverned(chat: seq<HostMessage>, governed: nat) returns (at: Option<int>)
    ensures at.Some? ==> FirstUngoverned(chat, governed, at.value)
    ensures at.None? ==> forall i :: governed <= i < |chat| ==> chat[i].isUser || chat[i].isSystem
  {
    at := None;
    if |chat| < governed { return; }
    for index := governed to |chat|
      invariant forall i :: governed <= i < index ==> chat[i].isUser || chat[i].isSystem
    {
      if IsAssistant(chat[index]) { return Some(index); }
    }
  }

  // ---- Observing ----

  /** Nothing is wrong with the chat from this checkpoint's and this snapshot's point of view. */
  ghost predicate Intact(checkpoint: seq<string>, baseline: Option<seq<string>>, chat: seq<HostMessage>, same: Matcher) {
    && Extends(checkpoint, chat, same)
    && (forall i :: |checkpoint| <= i < |chat| ==> chat[i].isUser || chat[i].isSystem)
    && (baseline.Some? ==> Extends(baseline.value, chat, same))
  }

  /** A message at which the chat first goes wrong, one way or the other. */
  ghost predicate Trouble(checkpoint: seq<string>, baseline: Option<seq<string>>, chat: seq<HostMessage>, same: Matcher, at: int) {
    || Diverges(checkpoint, chat, same, at)
    || FirstUngoverned(chat, |checkpoint|, at)
    || (baseline.Some? && Diverges(baseline.value, chat, same, at))
  }

  ghost predicate EarliestTrouble(checkpoint: seq<string>, baseline: Option<seq<string>>, chat: seq<HostMessage>, same: Matcher, at: int) {
    && Trouble(checkpoint, baseline, chat, same, at)
    && forall other :: Trouble(checkpoint, baseline, chat, same, other) ==> at <= other
  }

  /** Messages are missing, or a reply was appended that nothing governs. */
  ghost predicate Structural(checkpoint: seq<string>, baseline: Option<seq<string>>, chat: seq<HostMessage>) {
    || |chat| < |checkpoint|
    || (exists i :: |checkpoint| <= i < |chat| && !chat[i].isUser && !chat[i].isSystem)
    || (baseline.Some? && |chat| < |baseline.value|)
  }

  /** `n` is the largest of the lengths that are known. */
  ghost predicate Longest(n: int, chat: nat, checkpoint: nat, baseline: Option<seq<string>>, past: int) {
    && chat <= n && checkpoint <= n && past <= n && (baseline.Some? ==> |baseline.value| <= n)
    && (n == chat || n == checkpoint || n == past || (baseline.Some? && n == |baseline.value|))
  }

  function Min(a: Option<int>, b: Option<int>): (r: Option<int>) {
    if a.None? then b else if b.None? then a else if a.value <= b.value then a else b
  }

  function ReleaseFor(cutoff: int, chat: seq<HostMessage>): int
    requires 0 <= cutoff
  {
    if cutoff >= |chat| then cutoff
    else if chat[cutoff].isUser || chat[cutoff].isSystem then cutoff + 1
    else cutoff
  }

  function Max(a: int, b: int): int {
    if a < b then b else a
  }

  /** What an observation says, given the checkpoint it trusts. */
  ghost predicate Told(
      r: Observation, checkpoint: seq<string>, baseline: Option<seq<string>>, chat: seq<HostMessage>, same: Matcher)
  {
    && (r == Unchanged <==> Intact(checkpoint, baseline, chat, same))
    && (r == Unchanged || r.Invalidate?)
    && (r.Invalidate? ==>
      var q := r.request;
      && EarliestTrouble(checkpoint, baseline, chat, same, q.cutoff)
      && (q.release == q.cutoff + 1 <==>
            && !Structural(checkpoint, baseline, chat) && q.cutoff < |chat|
            && (chat[q.cutoff].isUser || chat[q.cutoff].isSystem))
      && (q.reason == DELETED <==> Structural(checkpoint, baseline, chat) || q.cutoff >= |chat|)
      && Longest(q.hostHistoryLength, |chat|, |checkpoint|, baseline, q.cutoff + 1)
      && AlwaysAccepted(q))
  }

  /** `recovered` is the checkpoint rebuilt from the service's recovery anchor, when there is one and that works;
      `governed` says whether the service has governed history for a chat without a checkpoint. */
  method Observe(
      chat: seq<HostMessage>, checkpoint: Option<seq<string>>, recovered: Option<seq<string>>, governed: bool,
      baseline: Option<seq<string>>, same: Matcher)
    returns (r: Observation, ghost trusted: seq<string>)
    ensures checkpoint.None? ==> r == if governed then NewChatNeeded else RefreshBaseline
    ensures checkpoint.Some? ==>
      && trusted == (if !Extends(checkpoint.value, chat, same) && recovered.Some? then recovered.value else checkpoint.value)
      && Told(r, trusted, baseline, chat, same)
  {
    hide Extends, Diverges, Told;
    trusted := [];
    if checkpoint.None? { return if governed then NewChatNeeded else RefreshBaseline, trusted; }
    var used := checkpoint.value;
    var cutoff := FindCutoff(used, chat, same);
    if cutoff.Some? && recovered.Some? {
      used := recovered.value;
      cutoff := FindCutoff(used, chat, same);
    }
    trusted := used;
    r := Inspect(chat, used, cutoff, baseline, same);
  }

  method Inspect(
      chat: seq<HostMessage>, used: seq<string>, cutoff: Option<int>, baseline: Option<seq<string>>, same: Matcher)
    returns (r: Observation)
    requires cutoff.None? <==> Extends(used, chat, same)
    requires cutoff.Some? ==> Diverges(used, chat, same, cutoff.value)
    ensures Told(r, used, baseline, chat, same)
  {
    hide ValidReason, Extends, Diverges, FirstUngoverned, Structural, Trouble, Intact, EarliestTrouble, AlwaysAccepted, RequestAt;
    var ungoverned := FindUngoverned(chat, |used|);
    var structural := |chat| < |used| || ungoverned.Some?;
    var reference := Max(|chat|, |used|);
    var memory := None;
    if baseline.Some? {
      memory := FindCutoff(baseline.value, chat, same);
      structural := structural || |chat| < |baseline.value|;
      reference := Max(reference, |baseline.value|);
    }
    StructuralIff(used, baseline, chat, ungoverned);
    TroublesFound(used, baseline, chat, same, cutoff, ungoverned, memory);
    var earliest := Min(Min(cutoff, ungoverned), memory);
    if earliest.None? { return Unchanged; }
    MinIsEarliest(used, baseline, chat, same, cutoff, ungoverned, memory);
    r := Invalidate(RequestAt(earliest.value, structural, chat, reference));
  }

  function RequestAt(at: int, structural: bool, chat: seq<HostMessage>, reference: int): (q: Request)
    requires at >= 0
    ensures AlwaysAccepted(q) && q.cutoff == at
    ensures q.release == at + 1 <==> !structural && at < |chat| && (chat[at].isUser || chat[at].isSystem)
    ensures q.reason == DELETED <==> structural || at >= |chat|
    ensures q.hostHistoryLength == if at < reference then reference else at + 1
  {
    ReasonsAreValid();
    assert |EDITED| != |DELETED|;
    Request(at, if structural then at else ReleaseFor(at, chat), Max(reference, at + 1),
            if structural || at >= |chat| then DELETED else EDITED)
  }

  lemma StructuralIff(checkpoint: seq<string>, baseline: Option<seq<string>>, chat: seq<HostMessage>, ungoverned: Option<int>)
    requires ungoverned.Some? ==> FirstUngoverned(chat, |checkpoint|, ungoverned.value)
    requires ungoverned.None? ==> forall i :: |checkpoint| <= i < |chat| ==> chat[i].isUser || chat[i].isSystem
    ensures Structural(checkpoint, baseline, chat) <==>
      |chat| < |checkpoint| || ungoverned.Some? || (baseline.Some? && |chat| < |baseline.value|)
  {
  }

  lemma MinIsEarliest(
      checkpoint: seq<string>, baseline: Option<seq<string>>, chat: seq<HostMessage>, same: Matcher,
      cutoff: Option<int>, ungoverned: Option<int>, memory: Option<int>)
    requires forall at :: Trouble(checkpoint, baseline, chat, same, at) <==> Some(at) in {cutoff, ungoverned, memory}
    requires Min(Min(cutoff, ungoverned), memory).Some?
    ensures EarliestTrouble(checkpoint, baseline, chat, same, Min(Min(cutoff, ungoverned), memory).value)
  {
    hide Trouble;
  }

  /** Every trouble is one of the three that are looked for. */
  lemma TroublesFound(
      checkpoint: seq<string>, baseline: Option<seq<string>>, chat: seq<HostMessage>, same: Matcher,
      cutoff: Option<int>, ungoverned: Option<int>, memory: Option<int>)
    requires cutoff.None? <==> Extends(checkpoint, chat, same)
    requires cutoff.Some? ==> Diverges(checkpoint, chat, same, cutoff.value)
    requires ungoverned.Some? ==> FirstUngoverned(chat, |checkpoint|, ungoverned.value)
    requires ungoverned.None? ==> forall i :: |checkpoint| <= i < |chat| ==> chat[i].isUser || chat[i].isSystem
    requires baseline.None? ==> memory.None?
    requires baseline.Some? ==> (memory.None? <==> Extends(baseline.value, chat, same))
    requires baseline.Some? && memory.Some? ==> Diverges(baseline.value, chat, same, memory.value)
    ensures forall at :: Trouble(checkpoint, baseline, chat, same, at) <==> Some(at) in {cutoff, ungoverned, memory}
    ensures Intact(checkpoint, baseline, chat, same) <==> cutoff.None? && ungoverned.None? && memory.None?
    ensures forall at :: Trouble(checkpoint, baseline, chat, same, at) ==> at >= 0
  {
    forall at ensures Diverges(checkpoint, chat, same, at) <==> cutoff == Some(at) {
      DivergesOnce(checkpoint, chat, same, at, if cutoff.Some? then cutoff.value else at);
    }
    if baseline.Some? {
      forall at ensures Diverges(baseline.value, chat, same, at) <==> memory == Some(at) {
        DivergesOnce(baseline.value, chat, same, at, if memory.Some? then memory.value else at);
      }
    }
  }

  lemma DivergesOnce(remembered: seq<string>, chat: seq<HostMessage>, same: Matcher, a: int, b: int)
    ensures Diverges(remembered, chat, same, a) && Diverges(remembered, chat, same, b) ==> a == b
    ensures Diverges(remembered, chat, same, a) ==> !Extends(remembered, chat, same)
  {
  }

  // ---- Creating and merging what was observed ----

  /** The request makes a new guard whatever the chat, epoch and command id. */
  ghost predicate AlwaysAccepted(q: Request) {
    && 0 <= q.cutoff <= q.release <= q.cutoff + 1 && q.cutoff < q.hostHistoryLength && ValidReason(q.reason)
  }

  /** Every observed request is accepted when there is no guard yet. */
  lemma ObservedIsCreated(q: Request, chatIdHash: string, epoch: nat, commandId: string)
    requires AlwaysAccepted(q) && ValidHash(chatIdHash) && ValidCommandId(commandId)
    ensures Create(q, chatIdHash, epoch, commandId).Success?
  {
    CreateSpec(q, chatIdHash, epoch, commandId);
  }

  /** With a guard pending, it is accepted if and only if it lies inside the history that guard knows of. */
  lemma ObservedIsMerged(g: Guard, q: Request, commandId: string)
    requires AlwaysAccepted(q) && Valid(g) && ValidCommandId(commandId)
    ensures Merge(g, q, commandId).Success? <==> q.cutoff < g.hostHistoryLength
  {
    if q.cutoff < g.hostHistoryLength { MergeSpec(g, q, commandId); }
  }

  /** A guard from a chat of one message refuses a reply found later, further on: it knows no history there. */
  lemma LaterReplyRefused(chatIdHash: string, commandId: string, epoch: nat)
    requires ValidHash(chatIdHash) && ValidCommandId(commandId)
    ensures ValidReason(DELETED)
    ensures var g := Create(Request(0, 1, 1, DELETED), chatIdHash, epoch, commandId);
      && g.Success? && Valid(g.value)
      && AlwaysAccepted(Request(2, 2, 3, DELETED))
      && Merge(g.value, Request(2, 2, 3, DELETED), commandId).Failure?
  {
    ReasonsAreValid();
    CreateSpec(Request(0, 1, 1, DELETED), chatIdHash, epoch, commandId);
  }
}
