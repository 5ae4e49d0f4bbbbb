/** What no pass of buildPromptTrace (runtime.js) touches: an entry keeps its source, its policy and its grant. */
module TraceSources {
  import opened MessageSpans
  import opened PromptEntries
  import opened TraceEntries
  import opened TraceHistory
  import FenceRestore
  import TraceWholeMessages
  import TraceSpans
  import TraceAlignment
  import TraceSuffixes
  import TraceOverrides

  /** The same source under the same grant: only mapping, digest and ambiguity may differ. */
  ghost predicate SameSource(a: Entry, b: Entry) {
    && a.order == b.order && a.identifier == b.identifier && a.role == b.role && a.name == b.name
    && a.sourceLabel == b.sourceLabel && a.policy == b.policy && a.grant == b.grant && a.grantIssue == b.grantIssue
    && a.component == b.component
  }

  ghost predicate AllSameSource(entries: seq<Entry>, result: seq<Entry>) {
    |result| == |entries| && forall i :: 0 <= i < |entries| ==> SameSource(entries[i], result[i])
  }

  lemma WholeMessagesKeep(initial: seq<Entry>, internal: seq<Message>, providers: seq<Message>, entries: seq<Entry>)
    requires |initial| == |internal| && TraceWholeMessages.WholeMessagesMatched(initial, internal, providers, entries)
    requires TraceWholeMessages.Unmapped(initial)
    ensures AllSameSource(initial, entries)
  {
    forall i | 0 <= i < |initial| ensures SameSource(initial[i], entries[i]) {
      TraceWholeMessages.MappedIffPaired(initial, internal, providers, entries, i, 0);
    }
  }

  lemma SpansKeep(initial: seq<Entry>, internal: seq<Message>, providers: seq<Message>, entries: seq<Entry>)
    requires |initial| == |internal| == |entries| && TraceSpans.SpansMatched(initial, internal, providers, entries)
    ensures AllSameSource(initial, entries)
  {
    forall i | 0 <= i < |initial| ensures SameSource(initial[i], entries[i]) {
      OutcomeKeeps(initial, internal, providers, TraceSpans.State(initial, entries[..i]), i, entries[i]);
    }
  }

  lemma OutcomeKeeps(initial: seq<Entry>, internal: seq<Message>, providers: seq<Message>, before: seq<Entry>, i: nat, e: Entry)
    requires |initial| == |internal| && i < |initial| && TraceSpans.SpanOutcome(initial, internal, providers, before, i, e)
    ensures SameSource(initial[i], e)
  {
    hide TraceSpans.Claimable;
    if o :| TraceSpans.Claimable(initial, internal, providers, before, i, o) {
      assert SameSource(initial[i], initial[i].(mapping := Some(TraceSpans.SpanMapping(o, internal[i].content))));
    }
  }

  lemma HistoryKeeps(
      entries: seq<Entry>, internal: seq<Message>, providers: seq<Message>, last: Option<int>,
      up: seq<Mapping>, down: seq<Mapping>, result: seq<Entry>)
    requires |entries| == |internal| && TraceAlignment.HistoryMatched(entries, internal, providers, last, up, down, result)
    ensures AllSameSource(entries, result)
  {
    hide Rising, Falling, Blocked, NoneBefore, Contiguous;
    if result != entries {
      ReboundKeeps(entries, History(entries), if Anchor(entries, History(entries)) >= 0 then Anchor(entries, History(entries)) else 0, up, down, result);
    }
  }

  lemma ReboundKeeps(entries: seq<Entry>, hist: seq<nat>, a: nat, up: seq<Mapping>, down: seq<Mapping>, result: seq<Entry>)
    requires HistoryInside(entries, hist) && TraceAlignment.Rebound(entries, hist, a, up, down, |hist|, result)
    ensures AllSameSource(entries, result)
  {
    forall i | 0 <= i < |entries| ensures SameSource(entries[i], result[i]) {
      if i in hist[..|hist|] {
        var k :| 0 <= k < |hist| && hist[k] == i;
      }
    }
  }

  lemma SuffixesKeep(entries: seq<Entry>, internal: seq<Message>, providers: seq<Message>, result: seq<Entry>)
    requires |entries| == |internal| && TraceSuffixes.SuffixesMatched(entries, internal, providers, result)
    ensures AllSameSource(entries, result)
  {
    hide TraceSuffixes.CommonSuffix, TraceSuffixes.CandidateOf;
    forall i | 0 <= i < |entries| ensures SameSource(entries[i], result[i]) {
      assert result == entries || TraceSuffixes.SuffixOutcome(entries, internal, providers, i, result[i]);
    }
  }

  lemma OverridesKeep(entries: seq<Entry>, overrides: seq<FenceRestore.Override>, result: seq<Entry>)
    requires TraceOverrides.Overridden(entries, overrides, |overrides|, result)
    ensures AllSameSource(entries, result)
  {
    forall i | 0 <= i < |entries| ensures SameSource(entries[i], result[i]) {
      if k :| 0 <= k < |overrides| && overrides[k].order == i {
        assert result[i] == TraceOverrides.Transformed(entries[i], overrides[k]);
      }
    }
  }

  lemma SameSourceChain(a: seq<Entry>, b: seq<Entry>, c: seq<Entry>)
    requires AllSameSource(a, b) && AllSameSource(b, c)
    ensures AllSameSource(a, c)
  {
  }
}
