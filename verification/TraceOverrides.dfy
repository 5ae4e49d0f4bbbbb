/** The fifth pass of buildPromptTrace (runtime.js): spans reported by a restored fence override the mapping of
    their sources, provided they contradict nothing mapped before and do not overlap one another. */
module TraceOverrides {
  import opened MessageSpans
  import opened PromptEntries
  import opened TraceEntries
  import opened FenceLease
  import opened FenceRestore

  datatype OverrideError = OverrideInvalid | OverrideAmbiguous

  /** The override describes a retained author source, and a span that holds what it says. */
  ghost predicate Bound(o: Override, runId: string, entries: seq<Entry>, providers: seq<Message>) {
    && o.runId == runId && o.order < |entries|
    && (var e := entries[o.order];
        && o.identifier == e.identifier && o.sourceLabel == e.sourceLabel && o.originalDigest == e.digest
        && e.policy == Retain && e.sourceLabel in AUTHOR_LABELS && e.component.Some?
        && 0 <= o.provider < |providers|
        && 0 <= o.start < o.end <= |providers[o.provider].content|
        && providers[o.provider].role == e.role && providers[o.provider].name == e.name
        && Digest(Message(e.role, e.name, providers[o.provider].content[o.start..o.end])) == o.transformedDigest)
  }

  /** A source that is mapped already is mapped to this very span. */
  ghost predicate Agrees(o: Override, entries: seq<Entry>) {
    o.order < |entries| ==>
      (var m := entries[o.order].mapping;
       m.Some? ==> m.value.provider == o.provider && m.value.start == o.start && m.value.end == o.end)
  }

  ghost predicate Fitting(o: Override, runId: string, entries: seq<Entry>, providers: seq<Message>) {
    && Bound(o, runId, entries, providers) && Agrees(o, entries)
    && !Crosses(entries, o.order, o.provider, o.start, o.end)
  }

  /** When a list of overrides is accepted, whatever its order. */
  ghost predicate Acceptable(overrides: seq<Override>, runId: string, entries: seq<Entry>, providers: seq<Message>) {
    && (forall k :: 0 <= k < |overrides| ==> Fitting(overrides[k], runId, entries, providers))
    && (forall j, k :: 0 <= j < k < |overrides| ==>
          overrides[j].order != overrides[k].order && SpansApart(overrides[j], overrides[k]))
  }

  ghost function Transformed(e: Entry, o: Override): Entry {
    e.(digest := o.transformedDigest, ambiguous := false,
       mapping := Some(Mapping(o.provider, o.start, o.end, FencedHostTransform)))
  }

  /** Exactly the overridden entries change. */
  ghost predicate Overridden(entries: seq<Entry>, overrides: seq<Override>, n: nat, result: seq<Entry>)
    requires n <= |overrides|
  {
    && |result| == |entries|
    && (forall k :: 0 <= k < n && overrides[k].order < |entries| ==>
          result[overrides[k].order] == Transformed(entries[overrides[k].order], overrides[k]))
    && (forall i :: 0 <= i < |entries| && (forall k :: 0 <= k < n ==> overrides[k].order != i) ==> result[i] == entries[i])
  }

  ghost predicate AcceptableSoFar(overrides: seq<Override>, n: nat, runId: string, entries: seq<Entry>, providers: seq<Message>)
    requires n <= |overrides|
  {
    && (forall k :: 0 <= k < n ==> Fitting(overrides[k], runId, entries, providers))
    && (forall j, k :: 0 <= j < k < n ==> overrides[j].order != overrides[k].order && SpansApart(overrides[j], overrides[k]))
  }

  /** With earlier overrides applied, a span is crossed by what crossed it before, or by one of those overrides. */
  lemma CrossedLater(
      overrides: seq<Override>, n: nat, runId: string, entries: seq<Entry>, providers: seq<Message>, state: seq<Entry>, o: Override)
    requires n <= |overrides| && AcceptableSoFar(overrides, n, runId, entries, providers)
    requires Overridden(entries, overrides, n, state) && o.order < |entries| && o.start < o.end
    requires forall k :: 0 <= k < n ==> overrides[k].order != o.order
    ensures Crosses(state, o.order, o.provider, o.start, o.end) <==>
      || Crosses(entries, o.order, o.provider, o.start, o.end)
      || exists k :: 0 <= k < n && !SpansApart(overrides[k], o)
  {
    forall i | 0 <= i < |entries| && CrossedBy(entries[i], o.provider, o.start, o.end)
      ensures CrossedBy(state[i], o.provider, o.start, o.end)
    {
      if k :| 0 <= k < n && overrides[k].order == i {
        assert Fitting(overrides[k], runId, entries, providers);
      }
    }
    forall i | 0 <= i < |entries| && CrossedBy(state[i], o.provider, o.start, o.end)
      ensures CrossedBy(entries[i], o.provider, o.start, o.end) || exists k :: 0 <= k < n && !SpansApart(overrides[k], o)
    {
      if k :| 0 <= k < n && overrides[k].order == i {
        assert state[i] == Transformed(entries[i], overrides[k]);
        assert !SpansApart(overrides[k], o);
      }
    }
    if k :| 0 <= k < n && !SpansApart(overrides[k], o) {
      assert Fitting(overrides[k], runId, entries, providers);
      assert CrossedBy(state[overrides[k].order], o.provider, o.start, o.end);
    }
  }

  lemma SameEntryLater(entries: seq<Entry>, overrides: seq<Override>, n: nat, state: seq<Entry>, o: Override, runId: string, providers: seq<Message>)
    requires n <= |overrides| && Overridden(entries, overrides, n, state)
    requires forall k :: 0 <= k < n ==> overrides[k].order != o.order
    ensures Bound(o, runId, state, providers) <==> Bound(o, runId, entries, providers)
    ensures Agrees(o, state) <==> Agrees(o, entries)
  {
  }

  lemma MoreOverridden(entries: seq<Entry>, overrides: seq<Override>, n: nat, state: seq<Entry>)
    requires n < |overrides| && Overridden(entries, overrides, n, state) && overrides[n].order < |entries|
    requires forall k :: 0 <= k < n ==> overrides[k].order != overrides[n].order
    ensures Overridden(entries, overrides, n + 1, state[overrides[n].order := Transformed(state[overrides[n].order], overrides[n])])
  {
  }

  predicate OverlapsAny(o: Override, spans: seq<(int, int, int)>) {
    exists k :: 0 <= k < |spans| && spans[k].0 == o.provider && o.start < spans[k].2 && o.end > spans[k].1
  }

  ghost predicate SpansOf(overrides: seq<Override>, n: nat, spans: seq<(int, int, int)>)
    requires n <= |overrides|
  {
    |spans| == n && forall k :: 0 <= k < n ==> spans[k] == (overrides[k].provider, overrides[k].start, overrides[k].end)
  }

  lemma OverlapsIff(overrides: seq<Override>, n: nat, spans: seq<(int, int, int)>, o: Override)
    requires n <= |overrides| && SpansOf(overrides, n, spans)
    ensures OverlapsAny(o, spans) <==> exists k :: 0 <= k < n && !SpansApart(overrides[k], o)
  {
    if OverlapsAny(o, spans) {
      var k :| 0 <= k < |spans| && spans[k].0 == o.provider && o.start < spans[k].2 && o.end > spans[k].1;
      assert !SpansApart(overrides[k], o);
    }
    if k :| 0 <= k < n && !SpansApart(overrides[k], o) {
      assert spans[k].0 == o.provider;
    }
  }

  /** The first override that is not accepted decides the error: it is invalid when its source was overridden before or it
      does not fit that source, ambiguous when its span contradicts a mapping or an earlier override. */
  ghost predicate FirstRefused(
      overrides: seq<Override>, runId: string, entries: seq<Entry>, providers: seq<Message>, n: int, error: OverrideError)
  {
    && 0 <= n < |overrides| && AcceptableSoFar(overrides, n, runId, entries, providers)
    && var o := overrides[n];
       var invalid := (exists k :: 0 <= k < n && overrides[k].order == o.order) || !Bound(o, runId, entries, providers);
       if invalid then error == OverrideInvalid
       else
         && error == OverrideAmbiguous
         && (!Fitting(o, runId, entries, providers) || exists k :: 0 <= k < n && !SpansApart(overrides[k], o))
  }

  method IsBound(o: Override, runId: string, entries: seq<Entry>, providers: seq<Message>) returns (r: bool)
    ensures r <==> Bound(o, runId, entries, providers)
  {
    if o.runId != runId || o.order >= |entries| { return false; }
    var e := entries[o.order];
    if o.identifier != e.identifier || o.sourceLabel != e.sourceLabel || o.originalDigest != e.digest { return false; }
    if e.policy != Retain || e.sourceLabel !in AUTHOR_LABELS || e.component.None? { return false; }
    if o.provider < 0 || o.provider >= |providers| { return false; }
    var p := providers[o.provider];
    if o.start < 0 || o.end <= o.start || o.end > |p.content| || p.role != e.role || p.name != e.name { return false; }
    r := Digest(Message(e.role, e.name, p.content[o.start..o.end])) == o.transformedDigest;
  }

  method ApplyOverrides(entries: seq<Entry>, providers: seq<Message>, runId: string, overrides: seq<Override>)
    returns (r: Result<seq<Entry>, OverrideError>)
    ensures r.Success? <==> Acceptable(overrides, runId, entries, providers)
    ensures r.Success? ==> Overridden(entries, overrides, |overrides|, r.value)
    ensures r.Failure? ==> exists n :: FirstRefused(overrides, runId, entries, providers, n, r.error)
  {
    hide Bound, Crosses, Overridden, SpansApart;
    var state, used, spans := entries, {}, [];
    NoneOverridden(entries, overrides);
    for n := 0 to |overrides|
      invariant |state| == |entries| && Overridden(entries, overrides, n, state) && SpansOf(overrides, n, spans)
      invariant forall i :: i in used <==> exists k :: 0 <= k < n && overrides[k].order == i
      invariant AcceptableSoFar(overrides, n, runId, entries, providers)
    {
      var o := overrides[n];
      if o.order in used {
        assert FirstRefused(overrides, runId, entries, providers, n, OverrideInvalid);
        return Failure(OverrideInvalid);
      }
      SameEntryLater(entries, overrides, n, state, o, runId, providers);
      var bound := IsBound(o, runId, state, providers);
      if !bound {
        assert FirstRefused(overrides, runId, entries, providers, n, OverrideInvalid);
        return Failure(OverrideInvalid);
      }
      BoundInside(o, runId, state, providers);
      CrossedLater(overrides, n, runId, entries, providers, state, o);
      OverlapsIff(overrides, n, spans, o);
      var collides, mapped := Crosses(state, o.order, o.provider, o.start, o.end) || OverlapsAny(o, spans), state[o.order].mapping;
      if collides || (mapped.Some? && (mapped.value.provider != o.provider || mapped.value.start != o.start || mapped.value.end != o.end)) {
        assert FirstRefused(overrides, runId, entries, providers, n, OverrideAmbiguous);
        return Failure(OverrideAmbiguous);
      }
      MoreOverridden(entries, overrides, n, state);
      state := state[o.order := state[o.order].(
        digest := o.transformedDigest, ambiguous := false,
        mapping := Some(Mapping(o.provider, o.start, o.end, FencedHostTransform)))];
      used := used + {o.order};
      spans := spans + [(o.provider, o.start, o.end)];
    }
    r := Success(state);
  }

  lemma NoneOverridden(entries: seq<Entry>, overrides: seq<Override>)
    ensures Overridden(entries, overrides, 0, entries)
  {
  }

  lemma BoundInside(o: Override, runId: string, entries: seq<Entry>, providers: seq<Message>)
    requires Bound(o, runId, entries, providers)
    ensures o.order < |entries| && 0 <= o.start < o.end
  {
  }

  // ---- The invariant ----

  lemma OverriddenRight(
      overrides: seq<Override>, runId: string, entries: seq<Entry>, internal: seq<Message>, providers: seq<Message>, result: seq<Entry>, i: nat)
    requires Sound(entries, internal, providers) && Acceptable(overrides, runId, entries, providers)
    requires Overridden(entries, overrides, |overrides|, result) && i < |result|
    ensures Describes(result[i], i, internal[i]) && MappedRight(result[i], internal[i], providers)
  {
    assert Describes(entries[i], i, internal[i]) && MappedRight(entries[i], internal[i], providers);
    if k :| 0 <= k < |overrides| && overrides[k].order == i {
      assert Fitting(overrides[k], runId, entries, providers);
      assert result[i] == Transformed(entries[i], overrides[k]);
    }
  }

  lemma OverriddenApart(
      overrides: seq<Override>, runId: string, entries: seq<Entry>, providers: seq<Message>, result: seq<Entry>, i: nat, j: nat)
    requires Separate(entries) && Acceptable(overrides, runId, entries, providers)
    requires Overridden(entries, overrides, |overrides|, result) && i < |result| && j < |result| && i != j
    requires result[i].mapping.Some? && result[j].mapping.Some?
    ensures MapsApart(result[i].mapping.value, result[j].mapping.value)
  {
    hide Bound;
    if k :| 0 <= k < |overrides| && overrides[k].order == i {
      TransformedApart(overrides, runId, entries, providers, result, k, j);
    } else if l :| 0 <= l < |overrides| && overrides[l].order == j {
      TransformedApart(overrides, runId, entries, providers, result, l, i);
    } else {
      var a, b := if i < j then i else j, if i < j then j else i;
      assert MapsApart(entries[a].mapping.value, entries[b].mapping.value);
    }
  }

  lemma TransformedApart(
      overrides: seq<Override>, runId: string, entries: seq<Entry>, providers: seq<Message>, result: seq<Entry>, k: nat, j: nat)
    requires Acceptable(overrides, runId, entries, providers) && Overridden(entries, overrides, |overrides|, result)
    requires k < |overrides| && overrides[k].order < |result| && j < |result| && overrides[k].order != j && result[j].mapping.Some?
    ensures result[overrides[k].order].mapping.Some?
    ensures MapsApart(result[overrides[k].order].mapping.value, result[j].mapping.value)
  {
    hide Bound;
    var o := overrides[k];
    assert Fitting(o, runId, entries, providers);
    if l :| 0 <= l < |overrides| && overrides[l].order == j {
      assert result[j] == Transformed(entries[j], overrides[l]);
      var a, b := if k < l then k else l, if k < l then l else k;
      assert SpansApart(overrides[a], overrides[b]);
    } else {
      assert !CrossedBy(entries[j], o.provider, o.start, o.end);
    }
  }

  /** The fifth pass keeps the trace invariant. */
  lemma OverridesSound(
      overrides: seq<Override>, runId: string, entries: seq<Entry>, internal: seq<Message>, providers: seq<Message>, result: seq<Entry>)
    requires Sound(entries, internal, providers) && Acceptable(overrides, runId, entries, providers)
    requires Overridden(entries, overrides, |overrides|, result)
    ensures Sound(result, internal, providers)
  {
    hide Acceptable, Faithful, Within;
    forall i | 0 <= i < |result| ensures Describes(result[i], i, internal[i]) && MappedRight(result[i], internal[i], providers) {
      OverriddenRight(overrides, runId, entries, internal, providers, result, i);
    }
    forall i, j | 0 <= i < j < |result| && result[i].mapping.Some? && result[j].mapping.Some?
      ensures MapsApart(result[i].mapping.value, result[j].mapping.value)
    {
      OverriddenApart(overrides, runId, entries, providers, result, i, j);
    }
  }
}
