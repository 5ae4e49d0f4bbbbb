/** Settling a pending history edit before a generation: the loop in index.js over a chat that may go on changing. */
module HistoryResolution {
  import opened MessageSpans
  import opened PromptEntries
  import opened HistoryGuard

  /** The governed part of a chat, as it was when its edits were settled. */
  datatype Checkpoint = Checkpoint(messages: seq<string>, epoch: int)

  datatype Outcome = Cleared | Blocked | LimitReached | Failed(error: GuardError)

  /** What the history service and the id generator answer, by iteration. */
  datatype Services = Services(epochs: (nat, nat) -> Option<int>, ids: (nat, nat) -> string, mergeIds: nat -> string)

  const DELETED := "host_message_deleted"

  lemma DeletedIsReason()
    ensures ValidReason(DELETED)
  {
    var s := DELETED;
    assert s[0] == 'h' && s[1] == 'o' && s[2] == 's' && s[3] == 't' && s[4] == '_' && s[5] == 'm' && s[6] == 'e'
        && s[7] == 's' && s[8] == 's' && s[9] == 'a' && s[10] == 'g' && s[11] == 'e' && s[12] == '_' && s[13] == 'd'
        && s[14] == 'e' && s[15] == 'l' && s[16] == 'e' && s[17] == 't' && s[18] == 'e' && s[19] == 'd' && |s| == 20;
  }

  /** Strictly smaller (release length, command outstanding). */
  ghost predicate Closer(a: Guard, b: Guard) {
    a.desiredRelease < b.desiredRelease || (a.desiredRelease == b.desiredRelease && a.active.None? && b.active.Some?)
  }

  ghost predicate Descends(trail: seq<Guard>) {
    forall k :: 0 < k < |trail| ==> Closer(trail[k], trail[k - 1])
  }

  ghost predicate Settled(g: Guard) {
    g.active.None? && g.applied == Some(g.desiredCutoff)
  }

  lemma LowerRequest(g: Guard, chatLength: nat) returns (q: Request)
    requires Valid(g) && chatLength < g.desiredRelease
    ensures q.cutoff == q.release == chatLength && q.reason == DELETED
    ensures q.hostHistoryLength == if g.hostHistoryLength < chatLength + 1 then chatLength + 1 else g.hostHistoryLength
    ensures AcceptableTo(g, q) && Below(q.cutoff, q.release, g.desiredCutoff, g.desiredRelease)
  {
    DeletedIsReason();
    q := Request(chatLength, chatLength, if g.hostHistoryLength < chatLength + 1 then chatLength + 1 else g.hostHistoryLength, DELETED);
  }

  /** The service answers with valid epochs, and ids are valid. */
  ghost predicate Answering(epochs: nat -> Option<int>, ids: nat -> string) {
    forall k :: 0 <= k < 2 ==> epochs(k).Some? && epochs(k).value >= 0 && ValidCommandId(ids(k))
  }

  ghost predicate AlwaysAnswering(s: Services) {
    && (forall n, k :: s.epochs(n, k).Some? && s.epochs(n, k).value >= 0 && ValidCommandId(s.ids(n, k)))
    && (forall n :: ValidCommandId(s.mergeIds(n)))
  }

  class HistoryStore {
    var guard: Option<Guard>
    var checkpoint: Option<Checkpoint>

    ghost predicate Stored()
      reads this
    {
      guard.Some? && Valid(guard.value)
    }

    constructor (guard: Option<Guard>, checkpoint: Option<Checkpoint>)
      ensures this.guard == guard && this.checkpoint == checkpoint
    {
      this.guard, this.checkpoint := guard, checkpoint;
    }

    /** Makes or merges the pending edit, and persists it when it changed. */
    method EnsurePending(q: Request, chatIdHash: string, epoch: int, commandId: string) returns (r: Result<Guard, GuardError>)
      modifies this
      requires guard.Some? ==> Valid(guard.value)
      ensures checkpoint == old(checkpoint)
      ensures r.Success? ==> guard == Some(r.value) && Valid(r.value)
      ensures r.Failure? ==> guard == old(guard)
      ensures old(guard).None? ==> r == Create(q, chatIdHash, epoch, commandId)
      ensures old(guard).Some? ==>
        var merged := Merge(old(guard).value, q, commandId);
        r == if merged.Success? then Success(merged.value.1) else Failure(merged.error)
    {
      if guard.None? {
        CreateSpec(q, chatIdHash, epoch, commandId);
        r := Create(q, chatIdHash, epoch, commandId);
        if r.Success? { guard := Some(r.value); }
      } else {
        var merged := Merge(guard.value, q, commandId);
        if merged.Failure? { return Failure(merged.error); }
        if merged.value.0 { guard := Some(merged.value.1); }
        r := Success(merged.value.1);
      }
    }

    method ReconcilePending(epochs: nat -> Option<int>, ids: nat -> string) returns (r: Result<Guard, GuardError>)
      requires Stored()
      modifies this
      ensures Stored() && checkpoint == old(checkpoint)
      ensures guard.value.desiredCutoff == old(guard).value.desiredCutoff && guard.value.desiredRelease == old(guard).value.desiredRelease
      ensures r.Success? ==> guard == Some(r.value) && Settled(r.value)
      ensures r.Success? ==> r.value.hostHistoryLength == old(guard).value.hostHistoryLength
      ensures r != Failure(LimitExceeded)
      ensures Answering(epochs, ids) ==> r.Success?
    {
      hide Valid, ValidCommandId;
      var stored;
      ghost var events;
      r, stored, events := Reconcile(guard.value, epochs, ids);
      guard := Some(stored);
    }

    /** Drops the guard and records the checkpoint in one write. */
    method Settle(prefix: seq<string>, epoch: int)
      modifies this
      ensures guard == None && checkpoint == Some(Checkpoint(prefix, epoch))
    {
      guard, checkpoint := None, Some(Checkpoint(prefix, epoch));
    }

    /** Follows a shortened chat down, merging and reconciling. */
    method LowerAndReconcile(chatLength: nat, commandId: string, epochs: nat -> Option<int>, ids: nat -> string)
      returns (r: Result<Guard, GuardError>)
      requires Stored() && chatLength < guard.value.desiredRelease
      modifies this
      ensures Stored() && checkpoint == old(checkpoint)
      ensures r.Success? ==>
        && guard == Some(r.value) && Settled(r.value)
        && r.value.desiredCutoff == r.value.desiredRelease == chatLength
        && r.value.hostHistoryLength >= old(guard).value.hostHistoryLength && r.value.hostHistoryLength > chatLength
        && r.value.hostHistoryLength in [old(guard).value.hostHistoryLength, chatLength + 1]
      ensures Answering(epochs, ids) && ValidCommandId(commandId) ==> r.Success?
    {
      hide Valid, ValidReason, ValidCommandId;
      ghost var g := guard.value;
      ghost var q := LowerRequest(guard.value, chatLength);
      var request := Request(chatLength, chatLength,
        if guard.value.hostHistoryLength < chatLength + 1 then chatLength + 1 else guard.value.hostHistoryLength, DELETED);
      assert request == q;
      var merged := EnsurePending(request, guard.value.chatIdHash, 0, commandId);
      if ValidCommandId(commandId) { MergeSpec(g, q, commandId); }
      if merged.Failure? { return Failure(merged.error); }
      MergeLowers(g, q, commandId);
      r := ReconcilePending(epochs, ids);
    }

    /** The resolution loop; `chats(k)` is the chat that iteration `k` looks at. */
    method Resolve(chats: nat -> seq<string>, services: Services) returns (r: Outcome, ghost trail: seq<Guard>)
      requires Stored()
      modifies this
      ensures trail != [] && trail[0] == old(guard).value && Descends(trail)
      ensures |trail| <= old(guard).value.desiredRelease + 2
      ensures r == LimitReached ==> old(guard).value.desiredRelease >= 127
      ensures (forall k :: |chats(k)| == |chats(0)|) ==> |trail| <= 2 && r != LimitReached
      ensures AlwaysAnswering(services) ==> !r.Failed?
      ensures r.Cleared? <==> guard.None?
      ensures !r.Cleared? ==> Stored() && checkpoint == old(checkpoint)
      ensures r.Cleared? ==>
        var last, chat := trail[|trail| - 1], chats(|trail| - 1);
        && Settled(last) && |chat| == last.desiredRelease && last.epoch.Some?
        && checkpoint == Some(Checkpoint(chat, last.epoch.value))
      ensures r.Blocked? ==>
        var last := trail[|trail| - 1];
        guard == Some(last) && Settled(last) && |chats(|trail| - 1)| > last.desiredRelease
    {
      hide Valid, ValidCommandId;
      trail := [guard.value];
      ReleaseIsNatural(guard.value);
      ghost var release := guard.value.desiredRelease;
      for attempt := 0 to 128
        invariant Stored() && checkpoint == old(checkpoint)
        invariant |trail| == attempt + 1 && trail[attempt] == guard.value && trail[0] == old(guard).value && Descends(trail)
        invariant 0 <= guard.value.desiredRelease <= release
        invariant attempt > 0 ==> guard.value.active.None? && guard.value.desiredRelease + attempt <= release + 1
        invariant attempt > 0 && (forall k :: |chats(k)| == |chats(0)|) ==> attempt == 1 && guard.value.desiredRelease <= |chats(0)|
      {
        var n: nat, pending, chat := attempt, guard.value, chats(attempt);
        SettledOrActive(pending);
        match PlanFor(pending, |chat|)
        case Lower(_, _) =>
          var lowered := LowerAndReconcile(|chat|, services.mergeIds(n), (k: nat) => services.epochs(n, k), (k: nat) => services.ids(n, k));
          if lowered.Failure? { return Failed(lowered.error), trail; }
          trail := trail + [guard.value];
        case ReconcileThenRecheck =>
          var reconciled := ReconcilePending((k: nat) => services.epochs(n, k), (k: nat) => services.ids(n, k));
          if reconciled.Failure? { return Failed(reconciled.error), trail; }
          trail := trail + [guard.value];
        case Clear =>
          var prefix := chat[..pending.desiredRelease];
          assert prefix == chat;
          Settle(prefix, pending.epoch.value);
          return Cleared, trail;
        case Block =>
          return Blocked, trail;
      }
      r := LimitReached;
    }
  }

  lemma ReleaseIsNatural(g: Guard)
    requires Valid(g)
    ensures 0 <= g.desiredCutoff <= g.desiredRelease
  {
  }

  lemma SettledOrActive(g: Guard)
    requires Valid(g)
    ensures g.active.None? ==> Settled(g) && g.epoch.Some?
    ensures 0 <= g.desiredRelease
  {
  }

  lemma MergeLowers(g: Guard, q: Request, commandId: string)
    requires Valid(g) && AcceptableTo(g, q) && Below(q.cutoff, q.release, g.desiredCutoff, g.desiredRelease)
    requires Merge(g, q, commandId).Success?
    ensures Merge(g, q, commandId).value.1.desiredCutoff == q.cutoff && Merge(g, q, commandId).value.1.desiredRelease == q.release
    ensures Merge(g, q, commandId).value.1.hostHistoryLength ==
      if g.hostHistoryLength < q.hostHistoryLength then q.hostHistoryLength else g.hostHistoryLength
  {
  }
}
