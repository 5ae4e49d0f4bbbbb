/** The third pass of buildPromptTrace (runtime.js): chat history still unmapped is aligned with the provider
    messages, forwards and backwards from an anchor, when the history coordinates run without a gap. */
module TraceHistory {
  import opened TextEdits
  import opened TextSearch
  import opened Ordering
  import opened MessageSpans
  import opened PromptEntries
  import opened TraceEntries

  // ---- History coordinates ----

  predicate IsHistory(e: Entry) {
    && e.identifier.ChatHistory? && e.identifier.ordinal >= 1
    && e.sourceLabel == "host_recent_chat" && e.policy == Retain
  }

  function Ordinal(entries: seq<Entry>, i: nat): nat {
    if i < |entries| && entries[i].identifier.ChatHistory? then entries[i].identifier.ordinal else 0
  }

  function ByOrdinal(entries: seq<Entry>): nat -> Key {
    (i: nat) => (Ordinal(entries, i), 0)
  }

  function HistoryIndices(entries: seq<Entry>, n: nat): (r: seq<nat>)
    requires n <= |entries|
    ensures forall i: nat :: i in r <==> i < n && IsHistory(entries[i])
  {
    if n == 0 then [] else HistoryIndices(entries, n - 1) + (if IsHistory(entries[n - 1]) then [n - 1] else [])
  }

  /** The history entries by ordinal. */
  function History(entries: seq<Entry>): seq<nat> {
    Sort(HistoryIndices(entries, |entries|), ByOrdinal(entries))
  }

  /** Exactly the retained recent-chat entries with a positive chat-history ordinal are history. */
  lemma HistoryElement(entries: seq<Entry>, i: nat)
    ensures i in History(entries) <==>
      && i < |entries| && entries[i].identifier.ChatHistory? && entries[i].identifier.ordinal > 0
      && entries[i].sourceLabel == "host_recent_chat" && entries[i].policy == Retain
  {
    SortElement(HistoryIndices(entries, |entries|), ByOrdinal(entries), i);
  }

  ghost predicate HistoryInside(entries: seq<Entry>, hist: seq<nat>) {
    forall k :: 0 <= k < |hist| ==> hist[k] < |entries| && IsHistory(entries[hist[k]])
  }

  /** The ordinals run without a gap, up to the last host message the prompt was built from. */
  ghost predicate Contiguous(entries: seq<Entry>, hist: seq<nat>, lastHostIndex: Option<int>) {
    && lastHostIndex.Some? && hist != []
    && (forall k :: 1 <= k < |hist| ==> Ordinal(entries, hist[k]) == Ordinal(entries, hist[k - 1]) + 1)
    && Ordinal(entries, hist[|hist| - 1]) >= lastHostIndex.value
  }

  method IsContiguous(entries: seq<Entry>, hist: seq<nat>, lastHostIndex: Option<int>) returns (r: bool)
    ensures r <==> Contiguous(entries, hist, lastHostIndex)
  {
    if lastHostIndex.None? || hist == [] { return false; }
    for k := 1 to |hist|
      invariant forall j :: 1 <= j < k ==> Ordinal(entries, hist[j]) == Ordinal(entries, hist[j - 1]) + 1
    {
      if Ordinal(entries, hist[k]) != Ordinal(entries, hist[k - 1]) + 1 { return false; }
    }
    r := Ordinal(entries, hist[|hist| - 1]) >= lastHostIndex.value;
  }

  lemma {:induction false} ContiguousOrdinals(entries: seq<Entry>, hist: seq<nat>, last: Option<int>, j: nat, k: nat)
    requires Contiguous(entries, hist, last) && j <= k < |hist|
    ensures Ordinal(entries, hist[k]) == Ordinal(entries, hist[j]) + (k - j)
    decreases k
  {
    if j < k { ContiguousOrdinals(entries, hist, last, j, k - 1); }
  }

  predicate Mapped(entries: seq<Entry>, i: nat) {
    i < |entries| && entries[i].mapping.Some?
  }

  function FirstMapped(entries: seq<Entry>, hist: seq<nat>, k: nat): (r: int)
    requires k <= |hist|
    ensures r == -1 <==> forall j :: k <= j < |hist| ==> !Mapped(entries, hist[j])
    ensures r != -1 ==> k <= r < |hist| && Mapped(entries, hist[r]) && forall j :: k <= j < r ==> !Mapped(entries, hist[j])
    decreases |hist| - k
  {
    if k == |hist| then -1 else if Mapped(entries, hist[k]) then k else FirstMapped(entries, hist, k + 1)
  }

  function FirstUnmapped(entries: seq<Entry>, hist: seq<nat>, k: nat): (r: int)
    requires k <= |hist|
    ensures r == -1 <==> forall j :: k <= j < |hist| ==> Mapped(entries, hist[j])
    ensures r != -1 ==> k <= r < |hist| && !Mapped(entries, hist[r]) && forall j :: k <= j < r ==> Mapped(entries, hist[j])
    decreases |hist| - k
  {
    if k == |hist| then -1 else if !Mapped(entries, hist[k]) then k else FirstUnmapped(entries, hist, k + 1)
  }

  function LastMapped(entries: seq<Entry>, hist: seq<nat>, k: nat): (r: int)
    requires k <= |hist|
    ensures r == -1 <==> forall j :: 0 <= j < k ==> !Mapped(entries, hist[j])
    ensures r != -1 ==> 0 <= r < k && Mapped(entries, hist[r]) && forall j :: r < j < k ==> !Mapped(entries, hist[j])
  {
    if k == 0 then -1 else if Mapped(entries, hist[k - 1]) then k - 1 else LastMapped(entries, hist, k - 1)
  }

  /** The position of the anchor, or -1. */
  function Anchor(entries: seq<Entry>, hist: seq<nat>): int {
    var unmapped := FirstUnmapped(entries, hist, FirstMapped(entries, hist, 0) + 1);
    if unmapped > 0 then unmapped - 1 else LastMapped(entries, hist, |hist|)
  }

  /** The anchor is the end of the first run of mapped history; there is one as soon as any history is mapped. */
  lemma AnchorEndsFirstRun(entries: seq<Entry>, hist: seq<nat>)
    ensures var a := Anchor(entries, hist);
      && (a == -1 <==> forall j :: 0 <= j < |hist| ==> !Mapped(entries, hist[j]))
      && (a != -1 ==>
            && 0 <= a < |hist| && Mapped(entries, hist[a])
            && (a + 1 < |hist| ==> !Mapped(entries, hist[a + 1]))
            && forall j, k :: 0 <= j < k < a && Mapped(entries, hist[j]) ==> Mapped(entries, hist[k]))
  {
    var f := FirstMapped(entries, hist, 0);
    var u := FirstUnmapped(entries, hist, f + 1);
    if f == -1 && hist != [] { assert !Mapped(entries, hist[0]); }
  }

  // ---- One history entry against one provider message ----

  predicate Exact(e: Entry, p: Message) {
    Digest(p) == e.digest
  }

  predicate HoldsOnce(p: Message, original: Message) {
    var at := IndexOf(p.content, original.content, 0);
    original.content != "" && at >= 0 && IndexOf(p.content, original.content, at + 1) == -1
  }

  predicate CutShort(e: Entry, p: Message, original: Message) {
    e.role == "assistant" && p.content != "" && p.content <= original.content
  }

  /** How provider message `p` can stand for entry `i`, if it can. */
  function MatchAt(entries: seq<Entry>, internal: seq<Message>, providers: seq<Message>, i: nat, p: int): (r: Option<Mapping>)
    requires |entries| == |internal| && i < |entries|
    ensures r.Some? ==> 0 <= p < |providers| && r.value.provider == p
  {
    var e, original := entries[i], internal[i];
    if !(0 <= p < |providers|) then None
    else
      var message := providers[p];
      var exact, short := Exact(e, message), CutShort(e, message, original);
      if message.role != e.role || message.name != e.name || (e.mapping.Some? && e.mapping.value.provider != p)
         || Occupied(entries, i, p) || !(exact || HoldsOnce(message, original) || short)
      then None
      else if exact then Some(Mapping(p, 0, |message.content|, StableHistory))
      else if short then Some(Mapping(p, 0, |message.content|, StableHistoryAssistantPrefix))
      else
        var at := IndexOf(message.content, original.content, 0);
        Some(Mapping(p, at, at + |original.content|, StableHistorySpan))
  }

  /** `p` is in `s`, at one place only. */
  ghost predicate OccursOnce(s: string, p: string) {
    exists at :: OccursAt(s, p, at) && forall other :: OccursAt(s, p, other) ==> other == at
  }

  /** What a provider message can do for a history entry: hold all of it, start it, or have it inside, in this order. */
  ghost predicate StandsFor(original: Message, p: int, providers: seq<Message>, m: Mapping)
    requires 0 <= p < |providers|
  {
    var text := providers[p].content;
    && m.provider == p && 0 <= m.start <= m.end <= |text|
    && match m.kind
       case StableHistory => text == original.content && text[m.start..m.end] == text
       case StableHistoryAssistantPrefix =>
         original.role == "assistant" && text < original.content && text != "" && text[m.start..m.end] == text
       case StableHistorySpan =>
         && original.content != "" && text != original.content && OccursOnce(text, original.content)
         && !(original.role == "assistant" && text != "" && text <= original.content)
         && text[m.start..m.end] == original.content
       case _ => false
  }

  /** Provider message `p` is free for entry `i`: nobody else is mapped into it, and the entry nowhere else. */
  ghost predicate FreeFor(entries: seq<Entry>, i: nat, p: int)
    requires i < |entries|
  {
    forall j :: 0 <= j < |entries| && entries[j].mapping.Some? ==> (j == i <==> entries[j].mapping.value.provider == p)
  }

  /** A provider message matches exactly when it has the entry's role and name, is free for it and can stand for it. */
  lemma MatchIff(entries: seq<Entry>, internal: seq<Message>, providers: seq<Message>, i: nat, p: int, m: Mapping)
    requires |entries| == |internal| && i < |entries|
    requires entries[i].role == internal[i].role && entries[i].name == internal[i].name && entries[i].digest == Digest(internal[i])
    ensures MatchAt(entries, internal, providers, i, p) == Some(m) <==>
      && 0 <= p < |providers| && providers[p].role == internal[i].role && providers[p].name == internal[i].name
      && FreeFor(entries, i, p) && StandsFor(internal[i], p, providers, m)
  {
    if 0 <= p < |providers| {
      FreeIff(entries, i, p);
      hide Occupied, FreeFor;
      OnceIff(providers[p], internal[i], m.start);
      if 0 <= m.start <= m.end <= |providers[p].content| {
        SliceWhole(providers[p].content, m.start, m.end);
        SliceFound(providers[p].content, internal[i].content, m.start, m.end);
      }
    }
  }

  lemma FreeIff(entries: seq<Entry>, i: nat, p: int)
    requires i < |entries|
    ensures FreeFor(entries, i, p) <==>
      !Occupied(entries, i, p) && (entries[i].mapping.Some? ==> entries[i].mapping.value.provider == p)
  {
  }

  lemma SliceWhole(s: string, start: int, end: int)
    requires 0 <= start <= end <= |s|
    ensures s[start..end] == s <==> start == 0 && end == |s|
  {
  }

  lemma SliceFound(s: string, p: string, start: int, end: int)
    requires 0 <= start <= end <= |s|
    ensures s[start..end] == p <==> OccursAt(s, p, start) && end == start + |p|
  {
  }

  lemma OnceIff(p: Message, original: Message, at: int)
    ensures original.content != "" ==> (HoldsOnce(p, original) <==> OccursOnce(p.content, original.content))
    ensures HoldsOnce(p, original) ==> (OccursAt(p.content, original.content, at) <==> at == IndexOf(p.content, original.content, 0))
  {
  }

  lemma MatchFaithful(entries: seq<Entry>, internal: seq<Message>, providers: seq<Message>, i: nat, p: int)
    requires |entries| == |internal| && i < |entries| && Describes(entries[i], i, internal[i]) && entries[i].mapping.None?
    requires MatchAt(entries, internal, providers, i, p).Some?
    ensures var m := MatchAt(entries, internal, providers, i, p).value;
      Within(m, providers) && Faithful(entries[i], internal[i], m, providers)
  {
  }

  /** `m` is the first match of entry `i` after `previous`. */
  ghost predicate NextAfter(entries: seq<Entry>, internal: seq<Message>, providers: seq<Message>, i: nat, previous: int, m: Mapping)
    requires |entries| == |internal| && i < |entries|
  {
    && previous < m.provider && MatchAt(entries, internal, providers, i, m.provider) == Some(m)
    && forall q :: previous < q < m.provider ==> MatchAt(entries, internal, providers, i, q).None?
  }

  ghost predicate NoneAfter(entries: seq<Entry>, internal: seq<Message>, providers: seq<Message>, i: nat, previous: int)
    requires |entries| == |internal| && i < |entries|
  {
    forall q :: previous < q ==> MatchAt(entries, internal, providers, i, q).None?
  }

  /** `m` is the last match of entry `i` before `next`. */
  ghost predicate LastBefore(entries: seq<Entry>, internal: seq<Message>, providers: seq<Message>, i: nat, next: int, m: Mapping)
    requires |entries| == |internal| && i < |entries|
  {
    && m.provider < next && MatchAt(entries, internal, providers, i, m.provider) == Some(m)
    && forall q :: m.provider < q < next ==> MatchAt(entries, internal, providers, i, q).None?
  }

  ghost predicate NoneBefore(entries: seq<Entry>, internal: seq<Message>, providers: seq<Message>, i: nat, next: int)
    requires |entries| == |internal| && i < |entries|
  {
    forall q :: q < next ==> MatchAt(entries, internal, providers, i, q).None?
  }

  lemma MappedMatchesOnce(entries: seq<Entry>, internal: seq<Message>, providers: seq<Message>, i: nat, q: int)
    requires |entries| == |internal| && i < |entries| && entries[i].mapping.Some?
    ensures q != entries[i].mapping.value.provider ==> MatchAt(entries, internal, providers, i, q).None?
  {
  }

  method FindNext(entries: seq<Entry>, internal: seq<Message>, providers: seq<Message>, i: nat, previous: int) returns (m: Option<Mapping>)
    requires |entries| == |internal| && i < |entries| && previous >= -1
    ensures m.Some? ==> NextAfter(entries, internal, providers, i, previous, m.value)
    ensures m.None? ==> NoneAfter(entries, internal, providers, i, previous)
  {
    hide MatchAt;
    m := None;
    if entries[i].mapping.Some? {
      var p := entries[i].mapping.value.provider;
      forall q | q != p ensures MatchAt(entries, internal, providers, i, q).None? {
        MappedMatchesOnce(entries, internal, providers, i, q);
      }
      if p > previous { m := MatchAt(entries, internal, providers, i, p); }
    } else {
      var p := previous + 1;
      while p < |providers| && m.None?
        invariant previous < p && (m.Some? ==> NextAfter(entries, internal, providers, i, previous, m.value))
        invariant m.None? ==> forall q :: previous < q < p ==> MatchAt(entries, internal, providers, i, q).None?
        decreases |providers| - p, m.None?
      {
        m := MatchAt(entries, internal, providers, i, p);
        p := p + 1;
      }
    }
  }

  method FindLast(entries: seq<Entry>, internal: seq<Message>, providers: seq<Message>, i: nat, next: int) returns (m: Option<Mapping>)
    requires |entries| == |internal| && i < |entries|
    ensures m.Some? ==> LastBefore(entries, internal, providers, i, next, m.value)
    ensures m.None? ==> NoneBefore(entries, internal, providers, i, next)
  {
    hide MatchAt;
    m := None;
    if entries[i].mapping.Some? {
      var p := entries[i].mapping.value.provider;
      forall q | q != p ensures MatchAt(entries, internal, providers, i, q).None? {
        MappedMatchesOnce(entries, internal, providers, i, q);
      }
      if p < next { m := MatchAt(entries, internal, providers, i, p); }
    } else {
      var p := next - 1;
      while p >= 0 && m.None?
        invariant p < next && (m.Some? ==> LastBefore(entries, internal, providers, i, next, m.value))
        invariant m.None? ==> forall q :: p < q < next ==> MatchAt(entries, internal, providers, i, q).None?
        decreases p, m.None?
      {
        m := MatchAt(entries, internal, providers, i, p);
        p := p - 1;
      }
    }
  }

  // ---- Forwards and backwards from the anchor ----

  /** Where the search for the t-th entry from the anchor on starts. */
  ghost function Floor(up: seq<Mapping>, t: nat, anchorProvider: int): int
    requires t <= |up|
  {
    if t == 0 then anchorProvider - 1 else up[t - 1].provider
  }

  ghost function Ceiling(down: seq<Mapping>, t: nat, anchorProvider: int): int
    requires t <= |down|
  {
    if t == 0 then anchorProvider else down[t - 1].provider
  }

  ghost predicate Rising(
      entries: seq<Entry>, internal: seq<Message>, providers: seq<Message>, hist: seq<nat>, a: nat, anchorProvider: int, up: seq<Mapping>)
    requires |entries| == |internal| && HistoryInside(entries, hist)
  {
    && a + |up| <= |hist|
    && forall t :: 0 <= t < |up| ==> NextAfter(entries, internal, providers, hist[a + t], Floor(up, t, anchorProvider), up[t])
  }

  ghost predicate Falling(
      entries: seq<Entry>, internal: seq<Message>, providers: seq<Message>, hist: seq<nat>, a: nat, anchorProvider: int, down: seq<Mapping>)
    requires |entries| == |internal| && HistoryInside(entries, hist)
  {
    && |down| <= a <= |hist|
    && forall t :: 0 <= t < |down| ==>
         LastBefore(entries, internal, providers, hist[a - 1 - t], Ceiling(down, t, anchorProvider), down[t])
  }

  lemma MoreRising(
      entries: seq<Entry>, internal: seq<Message>, providers: seq<Message>, hist: seq<nat>, a: nat, anchorProvider: int, up: seq<Mapping>, m: Mapping)
    requires |entries| == |internal| && HistoryInside(entries, hist)
    requires Rising(entries, internal, providers, hist, a, anchorProvider, up) && a + |up| < |hist|
    requires NextAfter(entries, internal, providers, hist[a + |up|], Floor(up, |up|, anchorProvider), m)
    ensures Rising(entries, internal, providers, hist, a, anchorProvider, up + [m])
  {
    hide NextAfter;
    var more := up + [m];
    forall t | 0 <= t < |more| ensures NextAfter(entries, internal, providers, hist[a + t], Floor(more, t, anchorProvider), more[t]) {
      assert Floor(more, t, anchorProvider) == Floor(up, t, anchorProvider);
    }
  }

  lemma MoreFalling(
      entries: seq<Entry>, internal: seq<Message>, providers: seq<Message>, hist: seq<nat>, a: nat, anchorProvider: int, down: seq<Mapping>, m: Mapping)
    requires |entries| == |internal| && HistoryInside(entries, hist)
    requires Falling(entries, internal, providers, hist, a, anchorProvider, down) && |down| < a
    requires LastBefore(entries, internal, providers, hist[a - 1 - |down|], Ceiling(down, |down|, anchorProvider), m)
    ensures Falling(entries, internal, providers, hist, a, anchorProvider, down + [m])
  {
    hide LastBefore;
    var more := down + [m];
    forall t | 0 <= t < |more| ensures LastBefore(entries, internal, providers, hist[a - 1 - t], Ceiling(more, t, anchorProvider), more[t]) {
      assert Ceiling(more, t, anchorProvider) == Ceiling(down, t, anchorProvider);
    }
  }

  /** Nothing after the last match can stand for the next entry. */
  ghost predicate Blocked(
      entries: seq<Entry>, internal: seq<Message>, providers: seq<Message>, hist: seq<nat>, a: nat, anchorProvider: int, up: seq<Mapping>)
    requires |entries| == |internal| && HistoryInside(entries, hist)
  {
    a + |up| < |hist| && NoneAfter(entries, internal, providers, hist[a + |up|], Floor(up, |up|, anchorProvider))
  }

  method BindSuffix(
      entries: seq<Entry>, internal: seq<Message>, providers: seq<Message>, hist: seq<nat>, a: nat, anchorProvider: nat)
    returns (up: seq<Mapping>, bound: bool)
    requires |entries| == |internal| && HistoryInside(entries, hist) && a <= |hist|
    ensures Rising(entries, internal, providers, hist, a, anchorProvider, up)
    ensures bound <==> a + |up| == |hist|
    ensures !bound ==> Blocked(entries, internal, providers, hist, a, anchorProvider, up)
  {
    hide NextAfter, NoneAfter;
    up := [];
    var previous := anchorProvider - 1;
    for k := a to |hist|
      invariant |up| == k - a && Rising(entries, internal, providers, hist, a, anchorProvider, up)
      invariant previous == Floor(up, |up|, anchorProvider) >= -1
    {
      var m := FindNext(entries, internal, providers, hist[k], previous);
      if m.None? { return up, false; }
      MoreRising(entries, internal, providers, hist, a, anchorProvider, up, m.value);
      MatchInside(entries, internal, providers, hist[k], previous, m.value);
      up := up + [m.value];
      previous := m.value.provider;
    }
    bound := true;
  }

  lemma MatchInside(entries: seq<Entry>, internal: seq<Message>, providers: seq<Message>, i: nat, previous: int, m: Mapping)
    requires |entries| == |internal| && i < |entries| && NextAfter(entries, internal, providers, i, previous, m)
    ensures 0 <= m.provider < |providers|
  {
  }

  method BindPrefix(
      entries: seq<Entry>, internal: seq<Message>, providers: seq<Message>, hist: seq<nat>, a: nat, anchorProvider: nat)
    returns (down: seq<Mapping>)
    requires |entries| == |internal| && HistoryInside(entries, hist) && a <= |hist|
    ensures Falling(entries, internal, providers, hist, a, anchorProvider, down)
    ensures |down| < a ==> NoneBefore(entries, internal, providers, hist[a - 1 - |down|], Ceiling(down, |down|, anchorProvider))
  {
    hide LastBefore, NoneBefore;
    down := [];
    var k, next := a, anchorProvider as int;
    while k > 0
      invariant 0 <= k <= a && |down| == a - k && Falling(entries, internal, providers, hist, a, anchorProvider, down)
      invariant next == Ceiling(down, |down|, anchorProvider)
    {
      var m := FindLast(entries, internal, providers, hist[k - 1], next);
      if m.None? { return; }
      MoreFalling(entries, internal, providers, hist, a, anchorProvider, down, m.value);
      down := down + [m.value];
      next := m.value.provider;
      k := k - 1;
    }
  }
}
