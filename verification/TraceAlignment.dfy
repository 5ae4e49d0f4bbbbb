/** The outcome of aligning chat history with the provider messages (runtime.js, buildPromptTrace). */
module TraceAlignment {
  import opened Ordering
  import opened MessageSpans
  import opened PromptEntries
  import opened TraceEntries
  import opened TraceHistory

  /** The match found for history position `k`, if any. */
  function MatchOf(a: nat, up: seq<Mapping>, down: seq<Mapping>, k: nat): Option<Mapping> {
    if a <= k < a + |up| then Some(up[k - a])
    else if k < a && a - 1 - k < |down| then Some(down[a - 1 - k])
    else None
  }

  ghost function Settled(e: Entry, m: Option<Mapping>): Entry {
    if e.mapping.None? && m.Some? then e.(mapping := m, ambiguous := false) else e
  }

  ghost predicate Distinct(hist: seq<nat>) {
    forall j, k :: 0 <= j < k < |hist| ==> hist[j] != hist[k]
  }

  /** Exactly the unmapped history entries with a match take it. */
  ghost predicate Rebound(entries: seq<Entry>, hist: seq<nat>, a: nat, up: seq<Mapping>, down: seq<Mapping>, n: nat, result: seq<Entry>)
    requires HistoryInside(entries, hist) && n <= |hist|
  {
    && |result| == |entries|
    && (forall k :: 0 <= k < n ==> result[hist[k]] == Settled(entries[hist[k]], MatchOf(a, up, down, k)))
    && (forall i :: 0 <= i < |entries| && i !in hist[..n] ==> result[i] == entries[i])
  }

  method ApplyMatches(entries: seq<Entry>, hist: seq<nat>, a: nat, up: seq<Mapping>, down: seq<Mapping>) returns (result: seq<Entry>)
    requires HistoryInside(entries, hist) && Distinct(hist)
    ensures Rebound(entries, hist, a, up, down, |hist|, result)
  {
    result := entries;
    for k := 0 to |hist|
      invariant Rebound(entries, hist, a, up, down, k, result)
    {
      OneMoreRebound(entries, hist, a, up, down, k, result);
      var i, m := hist[k], MatchOf(a, up, down, k);
      if result[i].mapping.None? && m.Some? {
        result := result[i := result[i].(mapping := m, ambiguous := false)];
      }
    }
  }

  lemma OneMoreRebound(entries: seq<Entry>, hist: seq<nat>, a: nat, up: seq<Mapping>, down: seq<Mapping>, k: nat, result: seq<Entry>)
    requires HistoryInside(entries, hist) && Distinct(hist) && k < |hist|
    requires Rebound(entries, hist, a, up, down, k, result)
    ensures result[hist[k]] == entries[hist[k]]
    ensures Rebound(entries, hist, a, up, down, k + 1, result[hist[k] := Settled(entries[hist[k]], MatchOf(a, up, down, k))])
  {
    hide MatchOf;
    assert hist[..k + 1] == hist[..k] + [hist[k]];
    assert hist[k] !in hist[..k];
  }

  /** The whole third pass: what it changes, and when. */
  ghost predicate HistoryMatched(
      entries: seq<Entry>, internal: seq<Message>, providers: seq<Message>, last: Option<int>,
      up: seq<Mapping>, down: seq<Mapping>, result: seq<Entry>)
    requires |entries| == |internal|
  {
    var hist, a := History(entries), Anchor(entries, History(entries));
    HistoryInside(entries, hist) &&
    if a == -1 || !Contiguous(entries, hist, last) then result == entries
    else
      0 <= a < |hist| && Mapped(entries, hist[a]) &&
      var anchor := entries[hist[a]].mapping.value.provider;
      && Rising(entries, internal, providers, hist, a, anchor, up)
      && if a + |up| < |hist| then
           Blocked(entries, internal, providers, hist, a, anchor, up) && result == entries
         else
           && Falling(entries, internal, providers, hist, a, anchor, down)
           && (|down| < a ==> NoneBefore(entries, internal, providers, hist[a - 1 - |down|], Ceiling(down, |down|, anchor)))
           && Rebound(entries, hist, a, up, down, |hist|, result)
  }

  lemma ContiguousDistinct(entries: seq<Entry>, hist: seq<nat>, last: Option<int>)
    requires Contiguous(entries, hist, last)
    ensures Distinct(hist)
  {
    forall j, k | 0 <= j < k < |hist| ensures hist[j] != hist[k] {
      ContiguousOrdinals(entries, hist, last, j, k);
    }
  }

  lemma HistoryIsInside(entries: seq<Entry>)
    ensures HistoryInside(entries, History(entries))
  {
    var hist := History(entries);
    forall k | 0 <= k < |hist| ensures hist[k] < |entries| && IsHistory(entries[hist[k]]) {
      HistoryElement(entries, hist[k]);
    }
  }

  ghost predicate InProviders(entries: seq<Entry>, providers: seq<Message>) {
    forall i :: 0 <= i < |entries| && entries[i].mapping.Some? ==> 0 <= entries[i].mapping.value.provider < |providers|
  }

  /** There is an alignment that gives this result. */
  ghost predicate Aligned(
      entries: seq<Entry>, internal: seq<Message>, providers: seq<Message>, last: Option<int>, result: seq<Entry>)
    requires |entries| == |internal|
  {
    exists up, down :: HistoryMatched(entries, internal, providers, last, up, down, result)
  }

  method MatchHistory(entries: seq<Entry>, internal: seq<Message>, providers: seq<Message>, last: Option<int>)
    returns (result: seq<Entry>, ghost up: seq<Mapping>, ghost down: seq<Mapping>)
    requires |entries| == |internal| && InProviders(entries, providers)
    ensures HistoryMatched(entries, internal, providers, last, up, down, result)
    ensures Aligned(entries, internal, providers, last, result)
  {
    hide History, Rising, Falling, Rebound, Blocked, Contiguous;
    up, down := [], [];
    var hist := History(entries);
    HistoryIsInside(entries);
    AnchorEndsFirstRun(entries, hist);
    var a := Anchor(entries, hist);
    var contiguous := IsContiguous(entries, hist, last);
    if a == -1 || !contiguous { return entries, up, down; }
    var anchor := entries[hist[a]].mapping.value.provider;
    ContiguousDistinct(entries, hist, last);
    var matches, bound := BindSuffix(entries, internal, providers, hist, a, anchor);
    up := matches;
    if !bound {
      RisingInside(entries, internal, providers, hist, a, anchor, matches);
      return entries, up, down;
    }
    var backwards := BindPrefix(entries, internal, providers, hist, a, anchor);
    down := backwards;
    result := ApplyMatches(entries, hist, a, matches, backwards);
  }

  lemma RisingInside(
      entries: seq<Entry>, internal: seq<Message>, providers: seq<Message>, hist: seq<nat>, a: nat, anchor: int, up: seq<Mapping>)
    requires |entries| == |internal| && HistoryInside(entries, hist) && Rising(entries, internal, providers, hist, a, anchor, up)
    ensures a + |up| <= |hist|
  {
  }

  // ---- Order ----

  ghost predicate Climbs(up: seq<Mapping>, anchor: int) {
    forall t :: 0 <= t < |up| ==> Floor(up, t, anchor) < up[t].provider
  }

  ghost predicate Descends(down: seq<Mapping>, anchor: int) {
    forall t :: 0 <= t < |down| ==> down[t].provider < Ceiling(down, t, anchor)
  }

  lemma {:induction false} ClimbOrder(up: seq<Mapping>, anchor: int, s: nat, t: nat)
    requires Climbs(up, anchor) && s <= t < |up|
    ensures anchor <= up[s].provider <= up[t].provider && (s < t ==> up[s].provider < up[t].provider)
    decreases t
  {
    assert Floor(up, t, anchor) < up[t].provider;
    if t > 0 { ClimbOrder(up, anchor, if s < t then s else t - 1, t - 1); }
  }

  lemma {:induction false} DescendOrder(down: seq<Mapping>, anchor: int, s: nat, t: nat)
    requires Descends(down, anchor) && s <= t < |down|
    ensures down[t].provider <= down[s].provider < anchor && (s < t ==> down[t].provider < down[s].provider)
    decreases t
  {
    assert down[t].provider < Ceiling(down, t, anchor);
    if t > 0 { DescendOrder(down, anchor, if s < t then s else t - 1, t - 1); }
  }

  lemma RisingClimbs(
      entries: seq<Entry>, internal: seq<Message>, providers: seq<Message>, hist: seq<nat>, a: nat, anchor: int, up: seq<Mapping>)
    requires |entries| == |internal| && HistoryInside(entries, hist) && Rising(entries, internal, providers, hist, a, anchor, up)
    ensures Climbs(up, anchor)
  {
    hide MatchAt;
    forall t | 0 <= t < |up| ensures Floor(up, t, anchor) < up[t].provider {
      assert NextAfter(entries, internal, providers, hist[a + t], Floor(up, t, anchor), up[t]);
    }
  }

  lemma FallingDescends(
      entries: seq<Entry>, internal: seq<Message>, providers: seq<Message>, hist: seq<nat>, a: nat, anchor: int, down: seq<Mapping>)
    requires |entries| == |internal| && HistoryInside(entries, hist) && Falling(entries, internal, providers, hist, a, anchor, down)
    ensures Descends(down, anchor)
  {
    hide MatchAt;
    forall t | 0 <= t < |down| ensures down[t].provider < Ceiling(down, t, anchor) {
      assert LastBefore(entries, internal, providers, hist[a - 1 - t], Ceiling(down, t, anchor), down[t]);
    }
  }

  lemma OrderOfMatches(a: nat, anchor: int, up: seq<Mapping>, down: seq<Mapping>, j: nat, k: nat)
    requires Climbs(up, anchor) && Descends(down, anchor)
    requires j < k && MatchOf(a, up, down, j).Some? && MatchOf(a, up, down, k).Some?
    ensures MatchOf(a, up, down, j).value.provider < MatchOf(a, up, down, k).value.provider
  {
    if a <= j {
      ClimbOrder(up, anchor, j - a, k - a);
    } else if k < a {
      DescendOrder(down, anchor, a - 1 - k, a - 1 - j);
    } else {
      DescendOrder(down, anchor, a - 1 - j, a - 1 - j);
      ClimbOrder(up, anchor, k - a, k - a);
    }
  }

  /** Matches stand in the order of the history they were found for. */
  lemma MatchesInOrder(
      entries: seq<Entry>, internal: seq<Message>, providers: seq<Message>, hist: seq<nat>, a: nat, anchor: int,
      up: seq<Mapping>, down: seq<Mapping>, j: nat, k: nat)
    requires |entries| == |internal| && HistoryInside(entries, hist)
    requires Rising(entries, internal, providers, hist, a, anchor, up) && Falling(entries, internal, providers, hist, a, anchor, down)
    requires j < k && MatchOf(a, up, down, j).Some? && MatchOf(a, up, down, k).Some?
    ensures MatchOf(a, up, down, j).value.provider < MatchOf(a, up, down, k).value.provider
  {
    hide Rising, Falling;
    RisingClimbs(entries, internal, providers, hist, a, anchor, up);
    FallingDescends(entries, internal, providers, hist, a, anchor, down);
    OrderOfMatches(a, anchor, up, down, j, k);
  }

  lemma MatchIsMatch(
      entries: seq<Entry>, internal: seq<Message>, providers: seq<Message>, hist: seq<nat>, a: nat, anchor: int,
      up: seq<Mapping>, down: seq<Mapping>, k: nat)
    requires |entries| == |internal| && HistoryInside(entries, hist) && k < |hist|
    requires Rising(entries, internal, providers, hist, a, anchor, up) && Falling(entries, internal, providers, hist, a, anchor, down)
    requires MatchOf(a, up, down, k).Some?
    ensures var m := MatchOf(a, up, down, k).value; MatchAt(entries, internal, providers, hist[k], m.provider) == Some(m)
  {
    hide MatchAt;
    if a <= k {
      assert NextAfter(entries, internal, providers, hist[a + (k - a)], Floor(up, k - a, anchor), up[k - a]);
    } else {
      var t := a - 1 - k;
      assert LastBefore(entries, internal, providers, hist[a - 1 - t], Ceiling(down, t, anchor), down[t]);
    }
  }

  lemma MatchedThere(entries: seq<Entry>, internal: seq<Message>, providers: seq<Message>, i: nat, p: int)
    requires |entries| == |internal| && i < |entries| && MatchAt(entries, internal, providers, i, p).Some?
    ensures entries[i].mapping.Some? ==> entries[i].mapping.value.provider == p
    ensures !Occupied(entries, i, p)
  {
  }

  /** After a successful alignment the history from some position on is mapped, each entry to a later provider
      message than the one before it. */
  lemma AlignedInOrder(
      entries: seq<Entry>, internal: seq<Message>, providers: seq<Message>, hist: seq<nat>, a: nat, anchor: int,
      up: seq<Mapping>, down: seq<Mapping>, result: seq<Entry>, j: nat, k: nat)
    requires |entries| == |internal| && HistoryInside(entries, hist) && Distinct(hist)
    requires Rising(entries, internal, providers, hist, a, anchor, up) && Falling(entries, internal, providers, hist, a, anchor, down)
    requires a + |up| == |hist| && Rebound(entries, hist, a, up, down, |hist|, result)
    requires a - |down| <= j < k < |hist|
    ensures result[hist[j]].mapping.Some? && result[hist[k]].mapping.Some?
    ensures result[hist[j]].mapping.value.provider < result[hist[k]].mapping.value.provider
  {
    hide MatchAt, Rising, Falling;
    MatchesInOrder(entries, internal, providers, hist, a, anchor, up, down, j, k);
    AlignedTo(entries, internal, providers, hist, a, anchor, up, down, result, j);
    AlignedTo(entries, internal, providers, hist, a, anchor, up, down, result, k);
  }

  lemma AlignedTo(
      entries: seq<Entry>, internal: seq<Message>, providers: seq<Message>, hist: seq<nat>, a: nat, anchor: int,
      up: seq<Mapping>, down: seq<Mapping>, result: seq<Entry>, k: nat)
    requires |entries| == |internal| && HistoryInside(entries, hist)
    requires Rising(entries, internal, providers, hist, a, anchor, up) && Falling(entries, internal, providers, hist, a, anchor, down)
    requires Rebound(entries, hist, a, up, down, |hist|, result) && k < |hist| && MatchOf(a, up, down, k).Some?
    ensures result[hist[k]].mapping.Some?
    ensures result[hist[k]].mapping.value.provider == MatchOf(a, up, down, k).value.provider
  {
    hide MatchAt, MatchOf;
    MatchIsMatch(entries, internal, providers, hist, a, anchor, up, down, k);
    MatchedThere(entries, internal, providers, hist[k], MatchOf(a, up, down, k).value.provider);
  }

  // ---- The invariant ----

  /** Entry `i` was mapped by this pass. */
  ghost predicate New(entries: seq<Entry>, hist: seq<nat>, a: nat, up: seq<Mapping>, down: seq<Mapping>, i: nat, k: nat)
    requires HistoryInside(entries, hist)
  {
    k < |hist| && hist[k] == i && entries[i].mapping.None? && MatchOf(a, up, down, k).Some?
  }

  lemma OldOrNew(
      entries: seq<Entry>, hist: seq<nat>, a: nat, up: seq<Mapping>, down: seq<Mapping>, result: seq<Entry>, i: nat)
    returns (k: nat)
    requires HistoryInside(entries, hist) && Rebound(entries, hist, a, up, down, |hist|, result) && i < |entries|
    ensures result[i] == entries[i] || (New(entries, hist, a, up, down, i, k) && result[i] == Settled(entries[i], MatchOf(a, up, down, k)))
  {
    assert hist[..|hist|] == hist;
    k := 0;
    if i in hist {
      k :| 0 <= k < |hist| && hist[k] == i;
    }
  }

  lemma NewRight(
      entries: seq<Entry>, internal: seq<Message>, providers: seq<Message>, hist: seq<nat>, a: nat, anchor: int,
      up: seq<Mapping>, down: seq<Mapping>, result: seq<Entry>, i: nat)
    requires Sound(entries, internal, providers) && HistoryInside(entries, hist) && i < |entries|
    requires Rising(entries, internal, providers, hist, a, anchor, up) && Falling(entries, internal, providers, hist, a, anchor, down)
    requires Rebound(entries, hist, a, up, down, |hist|, result)
    ensures Describes(result[i], i, internal[i]) && MappedRight(result[i], internal[i], providers)
  {
    hide MatchAt, MatchOf, Rising, Falling;
    assert Describes(entries[i], i, internal[i]) && MappedRight(entries[i], internal[i], providers);
    var k := OldOrNew(entries, hist, a, up, down, result, i);
    if New(entries, hist, a, up, down, i, k) {
      MatchIsMatch(entries, internal, providers, hist, a, anchor, up, down, k);
      MatchFaithful(entries, internal, providers, i, MatchOf(a, up, down, k).value.provider);
    }
  }

  lemma NewApart(
      entries: seq<Entry>, internal: seq<Message>, providers: seq<Message>, hist: seq<nat>, a: nat, anchor: int,
      up: seq<Mapping>, down: seq<Mapping>, i: nat, k: nat, j: nat, other: nat)
    requires |entries| == |internal| && HistoryInside(entries, hist)
    requires Rising(entries, internal, providers, hist, a, anchor, up) && Falling(entries, internal, providers, hist, a, anchor, down)
    requires New(entries, hist, a, up, down, i, k) && j < |entries| && i != j
    ensures entries[j].mapping.Some? ==> entries[j].mapping.value.provider != MatchOf(a, up, down, k).value.provider
    ensures New(entries, hist, a, up, down, j, other) ==>
      MatchOf(a, up, down, other).value.provider != MatchOf(a, up, down, k).value.provider
  {
    hide MatchAt, MatchOf, Rising, Falling;
    MatchIsMatch(entries, internal, providers, hist, a, anchor, up, down, k);
    MatchedThere(entries, internal, providers, i, MatchOf(a, up, down, k).value.provider);
    if New(entries, hist, a, up, down, j, other) {
      if k < other {
        MatchesInOrder(entries, internal, providers, hist, a, anchor, up, down, k, other);
      } else {
        MatchesInOrder(entries, internal, providers, hist, a, anchor, up, down, other, k);
      }
    }
  }

  lemma ReboundSound(
      entries: seq<Entry>, internal: seq<Message>, providers: seq<Message>, hist: seq<nat>, a: nat, anchor: int,
      up: seq<Mapping>, down: seq<Mapping>, result: seq<Entry>)
    requires Sound(entries, internal, providers) && HistoryInside(entries, hist)
    requires Rising(entries, internal, providers, hist, a, anchor, up) && Falling(entries, internal, providers, hist, a, anchor, down)
    requires Rebound(entries, hist, a, up, down, |hist|, result)
    ensures Sound(result, internal, providers)
  {
    hide MatchAt, MatchOf, Rising, Falling;
    forall i | 0 <= i < |result| ensures Describes(result[i], i, internal[i]) && MappedRight(result[i], internal[i], providers) {
      NewRight(entries, internal, providers, hist, a, anchor, up, down, result, i);
    }
    forall i, j | 0 <= i < j < |result| && result[i].mapping.Some? && result[j].mapping.Some?
      ensures MapsApart(result[i].mapping.value, result[j].mapping.value)
    {
      var k := OldOrNew(entries, hist, a, up, down, result, i);
      var l := OldOrNew(entries, hist, a, up, down, result, j);
      if New(entries, hist, a, up, down, i, k) {
        NewApart(entries, internal, providers, hist, a, anchor, up, down, i, k, j, l);
      } else if New(entries, hist, a, up, down, j, l) {
        NewApart(entries, internal, providers, hist, a, anchor, up, down, j, l, i, k);
      }
    }
  }

  /** The third pass keeps the trace invariant. */
  lemma HistorySound(
      entries: seq<Entry>, internal: seq<Message>, providers: seq<Message>, last: Option<int>,
      up: seq<Mapping>, down: seq<Mapping>, result: seq<Entry>)
    requires Sound(entries, internal, providers)
    requires HistoryMatched(entries, internal, providers, last, up, down, result)
    ensures Sound(result, internal, providers)
  {
    hide Rising, Falling, Rebound, Blocked, Anchor;
    var hist, a := History(entries), Anchor(entries, History(entries));
    if a != -1 && Contiguous(entries, hist, last) {
      var anchor := entries[hist[a]].mapping.value.provider;
      RisingInside(entries, internal, providers, hist, a, anchor, up);
      if a + |up| == |hist| {
        ReboundSound(entries, internal, providers, hist, a, anchor, up, down, result);
      }
    }
  }

  // ---- The outcome is determined ----

  lemma NextOnce(entries: seq<Entry>, internal: seq<Message>, providers: seq<Message>, i: nat, previous: int, m: Mapping, n: Mapping)
    requires |entries| == |internal| && i < |entries| && NextAfter(entries, internal, providers, i, previous, m)
    ensures NextAfter(entries, internal, providers, i, previous, n) ==> m == n
    ensures !NoneAfter(entries, internal, providers, i, previous)
  {
    hide MatchAt;
  }

  lemma LastOnce(entries: seq<Entry>, internal: seq<Message>, providers: seq<Message>, i: nat, next: int, m: Mapping, n: Mapping)
    requires |entries| == |internal| && i < |entries| && LastBefore(entries, internal, providers, i, next, m)
    ensures LastBefore(entries, internal, providers, i, next, n) ==> m == n
    ensures !NoneBefore(entries, internal, providers, i, next)
  {
    hide MatchAt;
  }

  lemma {:induction false} RisingAgree(
      entries: seq<Entry>, internal: seq<Message>, providers: seq<Message>, hist: seq<nat>, a: nat, anchor: int,
      up: seq<Mapping>, other: seq<Mapping>, t: nat)
    requires |entries| == |internal| && HistoryInside(entries, hist)
    requires Rising(entries, internal, providers, hist, a, anchor, up) && Rising(entries, internal, providers, hist, a, anchor, other)
    requires t < |up| && t < |other|
    ensures up[t] == other[t]
    decreases t
  {
    hide NextAfter;
    if t > 0 { RisingAgree(entries, internal, providers, hist, a, anchor, up, other, t - 1); }
    assert NextAfter(entries, internal, providers, hist[a + t], Floor(up, t, anchor), up[t]);
    assert NextAfter(entries, internal, providers, hist[a + t], Floor(other, t, anchor), other[t]);
    NextOnce(entries, internal, providers, hist[a + t], Floor(up, t, anchor), up[t], other[t]);
  }

  lemma {:induction false} FallingAgree(
      entries: seq<Entry>, internal: seq<Message>, providers: seq<Message>, hist: seq<nat>, a: nat, anchor: int,
      down: seq<Mapping>, other: seq<Mapping>, t: nat)
    requires |entries| == |internal| && HistoryInside(entries, hist)
    requires Falling(entries, internal, providers, hist, a, anchor, down) && Falling(entries, internal, providers, hist, a, anchor, other)
    requires t < |down| && t < |other|
    ensures down[t] == other[t]
    decreases t
  {
    hide LastBefore;
    if t > 0 { FallingAgree(entries, internal, providers, hist, a, anchor, down, other, t - 1); }
    assert LastBefore(entries, internal, providers, hist[a - 1 - t], Ceiling(down, t, anchor), down[t]);
    assert LastBefore(entries, internal, providers, hist[a - 1 - t], Ceiling(other, t, anchor), other[t]);
    LastOnce(entries, internal, providers, hist[a - 1 - t], Ceiling(down, t, anchor), down[t], other[t]);
  }

  lemma LongerNotBlocked(
      entries: seq<Entry>, internal: seq<Message>, providers: seq<Message>, hist: seq<nat>, a: nat, anchor: int,
      up: seq<Mapping>, other: seq<Mapping>)
    requires |entries| == |internal| && HistoryInside(entries, hist)
    requires Rising(entries, internal, providers, hist, a, anchor, up) && Rising(entries, internal, providers, hist, a, anchor, other)
    requires |up| < |other|
    ensures !Blocked(entries, internal, providers, hist, a, anchor, up)
  {
    hide NextAfter, NoneAfter;
    var n := |up|;
    if n > 0 { RisingAgree(entries, internal, providers, hist, a, anchor, up, other, n - 1); }
    assert NextAfter(entries, internal, providers, hist[a + n], Floor(other, n, anchor), other[n]);
    NextOnce(entries, internal, providers, hist[a + n], Floor(other, n, anchor), other[n], other[n]);
  }

  lemma LongerNotEnded(
      entries: seq<Entry>, internal: seq<Message>, providers: seq<Message>, hist: seq<nat>, a: nat, anchor: int,
      down: seq<Mapping>, other: seq<Mapping>)
    requires |entries| == |internal| && HistoryInside(entries, hist)
    requires Falling(entries, internal, providers, hist, a, anchor, down) && Falling(entries, internal, providers, hist, a, anchor, other)
    requires |down| < |other|
    ensures !NoneBefore(entries, internal, providers, hist[a - 1 - |down|], Ceiling(down, |down|, anchor))
  {
    hide LastBefore, NoneBefore;
    var n := |down|;
    if n > 0 { FallingAgree(entries, internal, providers, hist, a, anchor, down, other, n - 1); }
    assert LastBefore(entries, internal, providers, hist[a - 1 - n], Ceiling(other, n, anchor), other[n]);
    LastOnce(entries, internal, providers, hist[a - 1 - n], Ceiling(other, n, anchor), other[n], other[n]);
  }

  lemma SameRise(
      entries: seq<Entry>, internal: seq<Message>, providers: seq<Message>, hist: seq<nat>, a: nat, anchor: int,
      up: seq<Mapping>, other: seq<Mapping>)
    requires |entries| == |internal| && HistoryInside(entries, hist)
    requires Rising(entries, internal, providers, hist, a, anchor, up) && Rising(entries, internal, providers, hist, a, anchor, other)
    requires a + |up| < |hist| ==> Blocked(entries, internal, providers, hist, a, anchor, up)
    requires |up| <= |other|
    ensures up == other
  {
    hide Rising, Blocked;
    RisingInside(entries, internal, providers, hist, a, anchor, other);
    if |up| < |other| { LongerNotBlocked(entries, internal, providers, hist, a, anchor, up, other); }
    forall t | 0 <= t < |up| ensures up[t] == other[t] {
      RisingAgree(entries, internal, providers, hist, a, anchor, up, other, t);
    }
  }

  lemma FallingInside(
      entries: seq<Entry>, internal: seq<Message>, providers: seq<Message>, hist: seq<nat>, a: nat, anchor: int, down: seq<Mapping>)
    requires |entries| == |internal| && HistoryInside(entries, hist) && Falling(entries, internal, providers, hist, a, anchor, down)
    ensures |down| <= a <= |hist|
  {
  }

  lemma SameFall(
      entries: seq<Entry>, internal: seq<Message>, providers: seq<Message>, hist: seq<nat>, a: nat, anchor: int,
      down: seq<Mapping>, other: seq<Mapping>)
    requires |entries| == |internal| && HistoryInside(entries, hist) && a <= |hist|
    requires Falling(entries, internal, providers, hist, a, anchor, down) && Falling(entries, internal, providers, hist, a, anchor, other)
    requires |down| < a ==> NoneBefore(entries, internal, providers, hist[a - 1 - |down|], Ceiling(down, |down|, anchor))
    requires |down| <= |other|
    ensures down == other
  {
    hide Falling, NoneBefore;
    FallingInside(entries, internal, providers, hist, a, anchor, other);
    if |down| < |other| { LongerNotEnded(entries, internal, providers, hist, a, anchor, down, other); }
    forall t | 0 <= t < |down| ensures down[t] == other[t] {
      FallingAgree(entries, internal, providers, hist, a, anchor, down, other, t);
    }
  }

  lemma SameRebound(entries: seq<Entry>, hist: seq<nat>, a: nat, up: seq<Mapping>, down: seq<Mapping>, r: seq<Entry>, s: seq<Entry>)
    requires HistoryInside(entries, hist)
    requires Rebound(entries, hist, a, up, down, |hist|, r) && Rebound(entries, hist, a, up, down, |hist|, s)
    ensures r == s
  {
    assert hist[..|hist|] == hist;
    forall i | 0 <= i < |entries| ensures r[i] == s[i] {
      if i in hist { var k :| 0 <= k < |hist| && hist[k] == i; }
    }
  }

  /** `HistoryMatched` leaves no freedom: there is one outcome for every input. */
  lemma HistoryMatchedOnce(
      entries: seq<Entry>, internal: seq<Message>, providers: seq<Message>, last: Option<int>,
      up: seq<Mapping>, down: seq<Mapping>, r: seq<Entry>, up': seq<Mapping>, down': seq<Mapping>, s: seq<Entry>)
    requires |entries| == |internal|
    requires HistoryMatched(entries, internal, providers, last, up, down, r)
    requires HistoryMatched(entries, internal, providers, last, up', down', s)
    ensures r == s
  {
    hide Rising, Falling, Rebound, Blocked, Anchor, NoneBefore;
    var hist, a := History(entries), Anchor(entries, History(entries));
    if a != -1 && Contiguous(entries, hist, last) {
      var anchor := entries[hist[a]].mapping.value.provider;
      RisingInside(entries, internal, providers, hist, a, anchor, up);
      RisingInside(entries, internal, providers, hist, a, anchor, up');
      if |up| <= |up'| {
        SameRise(entries, internal, providers, hist, a, anchor, up, up');
      } else {
        SameRise(entries, internal, providers, hist, a, anchor, up', up);
      }
      if a + |up| == |hist| {
        if |down| <= |down'| {
          SameFall(entries, internal, providers, hist, a, anchor, down, down');
        } else {
          SameFall(entries, internal, providers, hist, a, anchor, down', down);
        }
        SameRebound(entries, hist, a, up, down, r, s);
      }
    }
  }
}
