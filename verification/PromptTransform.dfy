/** The two prompt leases together: fences first and isolation on top before the host transforms the prompt,
    isolation and then fences taken off again afterwards (index.js, onPromptReady and onSettingsReady). */
module PromptTransform {
  import opened Ordering
  import opened MessageSpans
  import opened PromptEntries
  import opened Brackets
  import opened FenceText
  import FenceLease
  import FenceRestore
  import FenceRoundTrip
  import FenceUndisturbed
  import SourceIsolation

  datatype TransformError =
    | LeaseOverlap
    | LeaseMissing
    | Fencing(fence: FenceLease.FenceError)
    | Isolating(isolation: SourceIsolation.IsolationError)

  /** The outcome of fencing, over all inputs on which it is granted. */
  ghost predicate FencedAs(
      working: seq<Message>, entries: seq<Entry>, runId: string, nonce: string, f: FenceLease.Fenced)
  {
    if FenceLease.Candidates(entries) == [] then f == FenceLease.Fenced(working, None)
    else
      && f.lease.Some? && f.lease.value.id == SafeId(nonce) && f.lease.value.runId == runId
      && FenceLease.LeasesEntries(f.lease.value, FenceLease.Candidates(entries))
      && FenceLease.FenceFor(working, f.messages, f.lease.value)
  }

  lemma FencedOnce(
      working: seq<Message>, entries: seq<Entry>, runId: string, nonce: string, a: FenceLease.Fenced, b: FenceLease.Fenced)
    requires FencedAs(working, entries, runId, nonce, a) && FencedAs(working, entries, runId, nonce, b)
    ensures a == b
  {
    hide InOrder;
    if FenceLease.Candidates(entries) != [] {
      assert a.lease.value.entries == b.lease.value.entries;
    }
  }

  /** The messages handed to the host: fenced, and then isolated. */
  ghost predicate Hidden(
      working: seq<Message>, host: seq<Message>, fenced: seq<Message>, fence: Option<FenceLease.Lease>, isolation: Option<SourceIsolation.Lease>)
  {
    && (if fence.Some? then FenceLease.FenceFor(working, fenced, fence.value) else fenced == working)
    && (if isolation.Some? then SourceIsolation.LeaseFor(fenced, host, isolation.value) else host == fenced)
  }

  /** An override that points exactly at the source the fence was put around. */
  ghost predicate AtItsSource(o: FenceRestore.Override, e: FenceLease.FenceEntry) {
    && o.identifier == e.identifier && o.order == e.order && o.originalDigest == e.digest
    && o.provider == e.message && o.start == e.start && o.end == e.end
  }

  ghost predicate AllAtSource(overrides: seq<FenceRestore.Override>, entries: seq<FenceLease.FenceEntry>) {
    |overrides| == |entries| && forall i :: 0 <= i < |entries| ==> AtItsSource(overrides[i], entries[i])
  }

  lemma OverridesAtSource(
      original: seq<Message>, host: seq<Message>, lease: FenceLease.Lease, out: FenceRestore.Outcome, overrides: seq<FenceRestore.Override>)
    requires FenceLease.FenceFor(original, host, lease) && FenceRestore.RestorableTo(host, lease, out)
    requires overrides == FenceRestore.OverridesOf(out.contents, lease, out.observed, out.spans)
    ensures AllAtSource(overrides, lease.entries)
  {
    FenceUndisturbed.UndisturbedIsOriginal(original, host, lease, out);
  }

  /** When the fences of a prompt can be taken off again. */
  ghost predicate Reversible(working: seq<Message>, fence: Option<FenceLease.Lease>) {
    fence.Some? ==>
      FenceUndisturbed.SameSpeakers(working, fence.value.entries) && FenceUndisturbed.StandInOrder(fence.value.entries)
  }

  class Leases {
    var isolation: Option<SourceIsolation.Lease>
    var fence: Option<FenceLease.Lease>

    ghost predicate Valid()
      reads this
    {
      && (isolation.Some? ==> forall i :: 0 <= i < |isolation.value.entries| ==> isolation.value.entries[i].placeholder != "")
      && (fence.Some? ==> FenceRestore.Markers(fence.value.entries))
    }

    constructor ()
      ensures Valid() && isolation.None? && fence.None?
    {
      isolation, fence := None, None;
    }

    /** Fences and then isolates; every failure leaves no lease behind. `authorized` is the number of
        sources the run may remove. */
    method OnPromptReady(
        working: seq<Message>, internal: seq<Message>, entries: seq<Entry>,
        runId: string, fenceNonce: string, sourceNonce: string, authorized: nat)
      returns (r: Result<seq<Message>, TransformError>, ghost fenced: FenceLease.Fenced)
      requires Valid()
      modifies this
      ensures Valid()
      ensures r.Success? ==>
        && old(isolation.None? && fence.None?) && (authorized > 0 ==> isolation.Some?)
        && FencedAs(working, entries, runId, fenceNonce, fenced) && fence == fenced.lease
        && Hidden(working, r.value, fenced.messages, fence, isolation)
      ensures r.Success? <==>
        && old(isolation.None? && fence.None?)
        && FenceLease.CanFence(working, internal, entries, runId, fenceNonce)
        && FencedAs(working, entries, runId, fenceNonce, fenced)
        && SourceIsolation.CanIsolate(fenced.messages, internal, entries, sourceNonce)
        && (authorized > 0 ==> SourceIsolation.Authorized(entries) != [])
      ensures r.Failure? ==> isolation.None? && fence.None?
      ensures r == Failure(LeaseOverlap) <==> old(isolation.Some? || fence.Some?)
    {
      hide InOrder, FenceLease.CanFence, SourceIsolation.CanIsolate, FenceLease.AllInPlace;
      fenced := FenceLease.Fenced([], None);
      var overlap := isolation.Some? || fence.Some?;
      isolation, fence := None, None;
      if overlap { return Failure(LeaseOverlap), fenced; }
      var f := FenceLease.CreateLease(working, internal, entries, runId, fenceNonce);
      if f.Failure? { return Failure(Fencing(f.error)), fenced; }
      fenced := f.value;
      var s := SourceIsolation.CreateLease(f.value.messages, internal, entries, sourceNonce);
      if s.Failure? { return Failure(Isolating(s.error)), fenced; }
      if authorized > 0 && s.value.lease.None? { return Failure(LeaseMissing), fenced; }
      isolation, fence := s.value.lease, f.value.lease;
      r := Success(s.value.messages);
    }

    /** Takes isolation and then the fences off whatever the host made of the prompt; clears both leases. */
    method OnSettingsReady(host: seq<Message>, authorized: nat, ghost working: seq<Message>, ghost fenced: seq<Message>)
      returns (r: Result<FenceRestore.Restored, TransformError>)
      requires Valid()
      modifies this
      ensures Valid() && isolation.None? && fence.None?
      ensures r == Failure(LeaseMissing) <==> authorized > 0 && old(isolation).None?
      ensures Hidden(working, host, fenced, old(fence), old(isolation)) && (authorized > 0 ==> old(isolation).Some?) ==>
        && (r.Success? <==> Reversible(working, old(fence)))
        && (r.Success? ==> r.value.messages == working)
        && (r.Success? && old(fence).Some? ==> AllAtSource(r.value.overrides, old(fence).value.entries))
      ensures authorized == 0 && old(isolation).None? && old(fence).None? ==> r == Success(FenceRestore.Restored(host, []))
      ensures authorized == 0 && old(isolation).None? && old(fence).Some? ==>
        (r.Success? <==> FenceRestore.Restorable(host, old(fence).value))
      ensures r.Success? && old(isolation).Some? ==> SourceIsolation.Returnable(host, old(isolation).value)
    {
      hide InOrder;
      var isolated, fences := isolation, fence;
      isolation, fence := None, None;
      if authorized > 0 && isolated.None? { return Failure(LeaseMissing); }
      var messages := host;
      if isolated.Some? {
        var restored, _, _ := SourceIsolation.RestoreLease(host, isolated.value, fenced);
        if restored.Failure? { return Failure(Isolating(restored.error)); }
        messages := restored.value.messages;
      }
      if fences.None? { return Success(FenceRestore.Restored(messages, [])); }
      r := TakeFencesOff(messages, fences.value, working);
    }
  }

  method TakeFencesOff(host: seq<Message>, lease: FenceLease.Lease, ghost working: seq<Message>)
    returns (r: Result<FenceRestore.Restored, TransformError>)
    requires FenceRestore.Markers(lease.entries)
    ensures r.Failure? ==> r.error.Fencing?
    ensures r.Success? <==> FenceRestore.Restorable(host, lease)
    ensures FenceLease.FenceFor(working, host, lease) ==>
      && (r.Success? <==> Reversible(working, Some(lease)))
      && (r.Success? ==> r.value.messages == working && AllAtSource(r.value.overrides, lease.entries))
  {
    hide InOrder;
    var restored, out := FenceRestore.RestoreLease(host, lease);
    if FenceLease.FenceFor(working, host, lease) {
      FenceUndisturbed.UndisturbedRestorable(working, host, lease);
      if restored.Success? {
        FenceUndisturbed.UndisturbedIsOriginal(working, host, lease, out);
        OverridesAtSource(working, host, lease, out, restored.value.overrides);
      }
    }
    if restored.Failure? { return Failure(Fencing(restored.error)); }
    r := Success(restored.value);
  }

  // ---- Sources that stand against their internal order ----

  const ReversedWorking := [Message("system", None, "ab")]
  const ReversedInternal := [Message("system", None, "b"), Message("system", None, "a")]

  ghost function ReversedEntry(order: nat): Entry
    requires order < 2
  {
    Entry(order, Named("scenario"), "system", None, Digest(ReversedInternal[order]), "raw_scenario", Retain, None, None,
          Some("scenario"), Some(Mapping(0, 1 - order, 2 - order, ContentSpan)), false)
  }

  lemma ReversedCandidates()
    ensures FenceLease.Candidates([ReversedEntry(0), ReversedEntry(1)]) == [ReversedEntry(0), ReversedEntry(1)]
  {
    var a, b := ReversedEntry(0), ReversedEntry(1);
    assert [a, b][1..] == [b] && [b][1..] == [];
    assert FenceLease.Candidates([b]) == [b];
  }

  lemma ReversedFits(id: string, order: nat)
    requires order < 2
    ensures FenceLease.Fits1(ReversedWorking, ReversedInternal, id, ReversedEntry(order))
  {
    var contents := Contents(ReversedWorking);
    assert contents == ["ab"];
    assert "ab"[0..1] == "a" && "ab"[1..2] == "b";
    var e := FenceLease.EntryOf(ReversedEntry(order), id);
    assert |e.startMarker| > 2 && |e.endMarker| > 2;
  }

  /** "ab" holds the source "b" of order 0 to the right of the source "a" of order 1: fences are put around both. */
  lemma ReversedSourcesFenced(runId: string, nonce: string)
    requires runId != "" && SafeId(nonce) != ""
    ensures FenceLease.CanFence(ReversedWorking, ReversedInternal, [ReversedEntry(0), ReversedEntry(1)], runId, nonce)
  {
    hide StartMarker, EndMarker;
    ReversedCandidates();
    ReversedFits(SafeId(nonce), 0);
    ReversedFits(SafeId(nonce), 1);
    assert FenceLease.MappingsApart(ReversedEntry(0), ReversedEntry(1));
  }

  /** Yet they can never be taken off again, not even when the host changes nothing. */
  lemma ReversedSourcesStuck(host: seq<Message>, lease: FenceLease.Lease)
    requires FenceLease.FenceFor(ReversedWorking, host, lease)
    requires FenceLease.LeasesEntries(lease, FenceLease.Candidates([ReversedEntry(0), ReversedEntry(1)]))
    ensures !FenceRestore.Restorable(host, lease)
  {
    hide InOrder, StartMarker, EndMarker;
    ReversedCandidates();
    var a, b := lease.entries[0], lease.entries[1];
    assert FenceUndisturbed.StandsBefore(b, a) && a.order < b.order;
    FenceUndisturbed.UndisturbedRestorable(ReversedWorking, host, lease);
  }
}
