/** The circle closed: a trace is built, its retained sources are fenced, the host changes nothing, the fences are
    taken off, and the overrides they report are accepted by the trace they came from (index.js, runtime.js). */
module FencedTrace {
  import opened MessageSpans
  import opened PromptEntries
  import opened TraceEntries
  import opened FenceLease
  import opened FenceRestore
  import opened FenceUndisturbed
  import FenceRoundTrip
  import TraceOverrides

  /** A fenced candidate is the trace entry of its order. */
  lemma CandidateIsEntry(entries: seq<Entry>, internal: seq<Message>, i: nat)
    requires AllDescribe(entries, internal) && i < |Candidates(entries)|
    ensures 0 <= Candidates(entries)[i].order < |entries|
    ensures entries[Candidates(entries)[i].order] == Candidates(entries)[i] && IsCandidate(Candidates(entries)[i])
  {
    var e := Candidates(entries)[i];
    assert e in Candidates(entries);
    var k :| 0 <= k < |entries| && entries[k] == e;
    assert Describes(entries[k], k, internal[k]);
  }

  /** What an undisturbed restoration reports of one source. */
  lemma ReportedOverride(original: seq<Message>, host: seq<Message>, lease: Lease, out: Outcome, i: nat)
    requires FenceFor(original, host, lease) && RestorableTo(host, lease, out) && i < |lease.entries|
    ensures |OverridesOf(out.contents, lease, out.observed, out.spans)| == |lease.entries|
    ensures InPlace(Contents(original), lease.entries[i]) && FenceRoundTrip.SameSpeaker(original, lease.entries[i])
    ensures var o, e := OverridesOf(out.contents, lease, out.observed, out.spans)[i], lease.entries[i];
      && o.runId == lease.runId && o.identifier == e.identifier && o.sourceLabel == e.sourceLabel && o.order == e.order
      && o.originalDigest == e.digest && o.provider == e.message && o.start == e.start && o.end == e.end
      && o.transformedDigest == Digest(Message(e.role, e.name, original[e.message].content[e.start..e.end]))
  {
    hide RestorableTo, Disjoint;
    UndisturbedIsOriginal(original, host, lease, out);
    RestoringNeeds(original, host, lease, out);
    OutcomeParts(host, lease, out);
  }

  lemma OutcomeParts(host: seq<Message>, lease: Lease, out: Outcome)
    requires RestorableTo(host, lease, out)
    ensures |out.observed| == |lease.entries| && AllInRange(out.contents, out.observed, out.spans)
    ensures forall i :: 0 <= i < |out.spans| ==>
      OverridesOf(out.contents, lease, out.observed, out.spans)[i]
      == OverrideOf(out.contents, lease, lease.entries[i], out.observed[i], out.spans[i])
  {
  }

  /** A span mapped in a sound trace is crossed by no other. */
  lemma MappedNotCrossed(entries: seq<Entry>, internal: seq<Message>, providers: seq<Message>, i: nat)
    requires Sound(entries, internal, providers) && i < |entries| && entries[i].mapping.Some?
    ensures var m := entries[i].mapping.value; !Crosses(entries, i, m.provider, m.start, m.end)
  {
    var m := entries[i].mapping.value;
    forall j | 0 <= j < |entries| && j != i ensures !CrossedBy(entries[j], m.provider, m.start, m.end) {
      if entries[j].mapping.Some? {
        assert i < j ==> MapsApart(m, entries[j].mapping.value);
        assert j < i ==> MapsApart(entries[j].mapping.value, m);
      }
    }
  }

  lemma OverrideFits(
      entries: seq<Entry>, internal: seq<Message>, providers: seq<Message>, host: seq<Message>, lease: Lease, out: Outcome, i: nat)
    requires Sound(entries, internal, providers) && LeasesEntries(lease, Candidates(entries))
    requires FenceFor(providers, host, lease) && RestorableTo(host, lease, out) && i < |lease.entries|
    ensures |OverridesOf(out.contents, lease, out.observed, out.spans)| == |lease.entries|
    ensures TraceOverrides.Fitting(OverridesOf(out.contents, lease, out.observed, out.spans)[i], lease.runId, entries, providers)
  {
    hide RestorableTo, FenceFor, OverridesOf, Crosses;
    ReportedOverride(providers, host, lease, out, i);
    CandidateIsEntry(entries, internal, i);
    MappedNotCrossed(entries, internal, providers, Candidates(entries)[i].order);
  }

  lemma OverridesDiffer(
      entries: seq<Entry>, internal: seq<Message>, providers: seq<Message>, host: seq<Message>, lease: Lease, out: Outcome, i: nat, j: nat)
    requires Sound(entries, internal, providers) && LeasesEntries(lease, Candidates(entries))
    requires FenceFor(providers, host, lease) && RestorableTo(host, lease, out) && i < j < |lease.entries|
    ensures |OverridesOf(out.contents, lease, out.observed, out.spans)| == |lease.entries|
    ensures var overrides := OverridesOf(out.contents, lease, out.observed, out.spans);
      overrides[i].order != overrides[j].order && SpansApart(overrides[i], overrides[j])
  {
    hide RestorableTo, FenceFor, OverridesOf;
    ReportedOverride(providers, host, lease, out, i);
    ReportedOverride(providers, host, lease, out, j);
    RestoringNeeds(providers, host, lease, out);
    assert FenceRoundTrip.DistinctOrders(lease.entries);
    CandidateIsEntry(entries, internal, i);
    CandidateIsEntry(entries, internal, j);
    var a, b := Candidates(entries)[i].order, Candidates(entries)[j].order;
    assert a < b ==> MapsApart(entries[a].mapping.value, entries[b].mapping.value);
    assert b < a ==> MapsApart(entries[b].mapping.value, entries[a].mapping.value);
  }

  /** The overrides of an undisturbed fence are always accepted by the trace whose sources were fenced. */
  lemma UndisturbedOverridesAccepted(
      entries: seq<Entry>, internal: seq<Message>, providers: seq<Message>, host: seq<Message>, lease: Lease, out: Outcome)
    requires Sound(entries, internal, providers) && LeasesEntries(lease, Candidates(entries))
    requires FenceFor(providers, host, lease) && RestorableTo(host, lease, out)
    ensures |out.observed| == |lease.entries| && AllInRange(out.contents, out.observed, out.spans)
    ensures TraceOverrides.Acceptable(OverridesOf(out.contents, lease, out.observed, out.spans), lease.runId, entries, providers)
  {
    hide Sound, FenceFor, RestorableTo, OverridesOf, TraceOverrides.Fitting, LeasesEntries;
    OutcomeParts(host, lease, out);
    var overrides := OverridesOf(out.contents, lease, out.observed, out.spans);
    OverridesCounted(providers, host, lease, out);
    forall k | 0 <= k < |overrides| ensures TraceOverrides.Fitting(overrides[k], lease.runId, entries, providers) {
      OverrideFits(entries, internal, providers, host, lease, out, k);
    }
    forall j, k | 0 <= j < k < |overrides|
      ensures overrides[j].order != overrides[k].order && SpansApart(overrides[j], overrides[k])
    {
      OverridesDiffer(entries, internal, providers, host, lease, out, j, k);
    }
  }

  lemma OverridesCounted(original: seq<Message>, host: seq<Message>, lease: Lease, out: Outcome)
    requires FenceFor(original, host, lease) && RestorableTo(host, lease, out)
    ensures |OverridesOf(out.contents, lease, out.observed, out.spans)| == |lease.entries|
  {
    ReportedOverride(original, host, lease, out, 0);
  }
}
