/** The second pass of buildPromptTrace (runtime.js): an internal text found exactly once among the provider
    messages is mapped to that span, unless another entry lays claim to it or reaches across it. */
module TraceSpans {
  import opened TextEdits
  import opened TextSearch
  import opened MessageSpans
  import opened PlacedMarkers
  import opened PromptEntries
  import opened TraceEntries

  /** No other entry left over from the first pass has the same text. */
  ghost predicate Sole(initial: seq<Entry>, internal: seq<Message>, i: int)
    requires |initial| == |internal| && 0 <= i < |internal|
  {
    forall j :: 0 <= j < |initial| && j != i && initial[j].mapping.None? ==> internal[j].content != internal[i].content
  }

  function SpanMapping(o: Occurrence, text: string): Mapping {
    Mapping(o.message, o.start, o.start + |text|, ContentSpan)
  }

  /** The text of entry `i` is found once, nobody else claims it and nothing mapped so far reaches across it. */
  ghost predicate Claimable(initial: seq<Entry>, internal: seq<Message>, providers: seq<Message>, before: seq<Entry>, i: int, o: Occurrence)
    requires |initial| == |internal| && 0 <= i < |internal|
  {
    && OnlyAt(Contents(providers), internal[i].content, o)
    && Sole(initial, internal, i)
    && !Crosses(before, i, o.message, o.start, o.start + |internal[i].content|)
  }

  /** What becomes of entry `i` when the entries stand as in `before`. */
  ghost predicate SpanOutcome(initial: seq<Entry>, internal: seq<Message>, providers: seq<Message>, before: seq<Entry>, i: int, e: Entry)
    requires |initial| == |internal| && 0 <= i < |internal|
  {
    var text := internal[i].content;
    if initial[i].mapping.Some? || text == "" || Absent(Contents(providers), text) then e == initial[i]
    else
      && (forall o :: Claimable(initial, internal, providers, before, i, o) ==>
            e == initial[i].(mapping := Some(SpanMapping(o, text))))
      && ((forall o :: !Claimable(initial, internal, providers, before, i, o)) ==> e == initial[i].(ambiguous := true))
  }

  /** The entries part-way through the pass. */
  ghost function State(initial: seq<Entry>, done: seq<Entry>): (r: seq<Entry>)
    requires |done| <= |initial|
    ensures |r| == |initial|
    ensures forall k :: 0 <= k < |done| ==> r[k] == done[k]
    ensures forall k :: |done| <= k < |initial| ==> r[k] == initial[k]
  {
    done + initial[|done|..]
  }

  /** Entries are settled in internal order, each against those settled before it. */
  ghost predicate SpansMatched(initial: seq<Entry>, internal: seq<Message>, providers: seq<Message>, done: seq<Entry>)
    requires |initial| == |internal|
  {
    && |done| <= |initial|
    && forall k :: 0 <= k < |done| ==> SpanOutcome(initial, internal, providers, State(initial, done[..k]), k, done[k])
  }

  lemma MoreMatched(initial: seq<Entry>, internal: seq<Message>, providers: seq<Message>, done: seq<Entry>, e: Entry)
    requires |initial| == |internal| && |done| < |initial| && SpansMatched(initial, internal, providers, done)
    requires SpanOutcome(initial, internal, providers, State(initial, done), |done|, e)
    ensures SpansMatched(initial, internal, providers, done + [e])
  {
    hide SpanOutcome;
    var more := done + [e];
    forall k | 0 <= k < |more| ensures SpanOutcome(initial, internal, providers, State(initial, more[..k]), k, more[k]) {
      assert more[..k] == done[..k];
      if k == |done| { assert done[..k] == done; }
    }
  }

  // ---- Candidates ----

  type SpanKey = (int, int, int)

  ghost predicate Candidates(initial: seq<Entry>, internal: seq<Message>, providers: seq<Message>, i: int, found: seq<Occurrence>)
    requires |initial| == |internal| && 0 <= i < |internal|
  {
    if initial[i].mapping.Some? || internal[i].content == "" then found == []
    else AllOccurrences(Contents(providers), internal[i].content, found)
  }

  function KeyOf(o: Occurrence, text: string): SpanKey {
    (o.message, o.start, o.start + |text|)
  }

  /** Entry `i` lays claim to the span `key`. */
  ghost predicate Claims(internal: seq<Message>, found: seq<seq<Occurrence>>, i: int, key: SpanKey)
    requires |found| <= |internal|
  {
    0 <= i < |found| && |found[i]| == 1 && KeyOf(found[i][0], internal[i].content) == key
  }

  ghost predicate Ascending(xs: seq<nat>) {
    forall i, j :: 0 <= i < j < |xs| ==> xs[i] < xs[j]
  }

  ghost predicate ClaimsOf(internal: seq<Message>, found: seq<seq<Occurrence>>, key: SpanKey, orders: seq<nat>)
    requires |found| <= |internal|
  {
    Ascending(orders) && forall i: nat :: i in orders <==> Claims(internal, found, i, key)
  }

  ghost predicate AllClaims(internal: seq<Message>, found: seq<seq<Occurrence>>, claims: map<SpanKey, seq<nat>>)
    requires |found| <= |internal|
  {
    forall key :: ClaimsOf(internal, found, key, if key in claims then claims[key] else [])
  }

  ghost predicate AllCandidates(initial: seq<Entry>, internal: seq<Message>, providers: seq<Message>, found: seq<seq<Occurrence>>)
    requires |initial| == |internal|
  {
    |found| <= |initial| && forall i :: 0 <= i < |found| ==> Candidates(initial, internal, providers, i, found[i])
  }

  lemma ClaimsElsewhere(internal: seq<Message>, found: seq<seq<Occurrence>>, next: seq<Occurrence>, key: SpanKey, orders: seq<nat>)
    requires |found| < |internal| && ClaimsOf(internal, found, key, orders)
    requires |next| != 1 || KeyOf(next[0], internal[|found|].content) != key
    ensures ClaimsOf(internal, found + [next], key, orders)
  {
    forall i: nat ensures Claims(internal, found + [next], i, key) <==> Claims(internal, found, i, key) {
    }
  }

  lemma ClaimsHere(internal: seq<Message>, found: seq<seq<Occurrence>>, next: seq<Occurrence>, key: SpanKey, orders: seq<nat>)
    requires |found| < |internal| && ClaimsOf(internal, found, key, orders)
    requires |next| == 1 && KeyOf(next[0], internal[|found|].content) == key
    ensures ClaimsOf(internal, found + [next], key, orders + [|found|])
  {
    var longer, more := found + [next], orders + [|found|];
    forall i: nat ensures i in more <==> Claims(internal, longer, i, key) {
      assert i in more <==> i in orders || i == |found|;
      assert Claims(internal, longer, i, key) <==> Claims(internal, found, i, key) || i == |found|;
    }
    forall i, j | 0 <= i < j < |more| ensures more[i] < more[j] {
      if j == |orders| { assert more[i] in orders; }
    }
  }

  lemma MoreClaims(internal: seq<Message>, found: seq<seq<Occurrence>>, claims: map<SpanKey, seq<nat>>, next: seq<Occurrence>)
    requires |found| < |internal| && AllClaims(internal, found, claims)
    ensures |next| != 1 ==> AllClaims(internal, found + [next], claims)
    ensures |next| == 1 ==>
      var key := KeyOf(next[0], internal[|found|].content);
      AllClaims(internal, found + [next], claims[key := (if key in claims then claims[key] else []) + [|found|]])
  {
    hide ClaimsOf;
    if |next| != 1 {
      forall key ensures ClaimsOf(internal, found + [next], key, if key in claims then claims[key] else []) {
        ClaimsElsewhere(internal, found, next, key, if key in claims then claims[key] else []);
      }
    } else {
      var here := KeyOf(next[0], internal[|found|].content);
      var after := claims[here := (if here in claims then claims[here] else []) + [|found|]];
      forall key ensures ClaimsOf(internal, found + [next], key, if key in after then after[key] else []) {
        if key == here {
          ClaimsHere(internal, found, next, key, if key in claims then claims[key] else []);
        } else {
          ClaimsElsewhere(internal, found, next, key, if key in claims then claims[key] else []);
        }
      }
    }
  }

  method FindCandidates(initial: seq<Entry>, internal: seq<Message>, providers: seq<Message>)
    returns (found: seq<seq<Occurrence>>, claims: map<SpanKey, seq<nat>>)
    requires |initial| == |internal|
    ensures |found| == |initial| && AllCandidates(initial, internal, providers, found) && AllClaims(internal, found, claims)
  {
    hide AllOccurrences, AllClaims, Claims, ClaimsOf;
    found, claims := [], map[];
    NoClaims(internal);
    for i := 0 to |initial|
      invariant |found| == i && AllCandidates(initial, internal, providers, found) && AllClaims(internal, found, claims)
    {
      var text, next := internal[i].content, [];
      if initial[i].mapping.None? && text != "" {
        next := FindOccurrences(Contents(providers), text);
      }
      MoreClaims(internal, found, claims, next);
      if |next| == 1 {
        var key := KeyOf(next[0], text);
        claims := claims[key := (if key in claims then claims[key] else []) + [i]];
      }
      found := found + [next];
    }
  }

  lemma NoClaims(internal: seq<Message>)
    ensures AllClaims(internal, [], map[])
  {
  }

  // ---- What the claims say ----

  lemma OneFound(initial: seq<Entry>, internal: seq<Message>, providers: seq<Message>, i: nat, found: seq<Occurrence>, o: Occurrence)
    requires |initial| == |internal| && i < |internal| && Candidates(initial, internal, providers, i, found)
    requires initial[i].mapping.None? && internal[i].content != ""
    ensures found == [o] <==> OnlyAt(Contents(providers), internal[i].content, o)
  {
    if OnlyAt(Contents(providers), internal[i].content, o) {
      OneOccurrence(Contents(providers), internal[i].content, found, o);
    }
    if found == [o] {
      assert FoundAt(Contents(providers), internal[i].content, found[0]);
      OneOccurrence(Contents(providers), internal[i].content, found, o);
    }
  }

  /** Two entries claim the same span exactly when they have the same text. */
  lemma SameClaim(initial: seq<Entry>, internal: seq<Message>, providers: seq<Message>, found: seq<seq<Occurrence>>, i: nat, j: nat, key: SpanKey)
    requires |initial| == |internal| == |found| && AllCandidates(initial, internal, providers, found)
    requires i < |found| && j < |found| && Claims(internal, found, i, key)
    ensures Claims(internal, found, j, key) <==> initial[j].mapping.None? && internal[j].content == internal[i].content
  {
    hide AllOccurrences;
    var contents, a, b := Contents(providers), internal[i].content, internal[j].content;
    var o := found[i][0];
    assert Candidates(initial, internal, providers, i, found[i]) && Candidates(initial, internal, providers, j, found[j]);
    assert found[i] == [o];
    OneFound(initial, internal, providers, i, found[i], o);
    if Claims(internal, found, j, key) {
      assert found[j] == [o];
      OneFound(initial, internal, providers, j, found[j], o);
      assert contents[o.message][o.start..o.start + |a|] == a && contents[o.message][o.start..o.start + |b|] == b;
    }
    if initial[j].mapping.None? && b == a {
      OneFound(initial, internal, providers, j, found[j], o);
    }
  }

  lemma SoleIffOneClaim(
      initial: seq<Entry>, internal: seq<Message>, providers: seq<Message>, found: seq<seq<Occurrence>>, i: nat, key: SpanKey, orders: seq<nat>)
    requires |initial| == |internal| == |found| && AllCandidates(initial, internal, providers, found)
    requires i < |found| && Claims(internal, found, i, key) && ClaimsOf(internal, found, key, orders)
    ensures |orders| == 1 <==> Sole(initial, internal, i)
  {
    hide Claims, AllCandidates;
    assert i in orders;
    forall j: nat | j < |found|
      ensures j in orders <==> initial[j].mapping.None? && internal[j].content == internal[i].content
    {
      SameClaim(initial, internal, providers, found, i, j, key);
    }
    forall j | j in orders ensures j < |found| { ClaimInside(internal, found, j, key); }
    if |orders| == 1 {
      assert orders == [i];
    } else {
      var other := if orders[0] == i then orders[1] else orders[0];
      assert other in orders && other != i;
    }
  }

  lemma ClaimInside(internal: seq<Message>, found: seq<seq<Occurrence>>, i: int, key: SpanKey)
    requires |found| <= |internal| && Claims(internal, found, i, key)
    ensures 0 <= i < |found|
  {
  }

  // ---- The pass ----

  method SettleSpan(
      initial: seq<Entry>, internal: seq<Message>, providers: seq<Message>,
      found: seq<seq<Occurrence>>, claims: map<SpanKey, seq<nat>>, entries: seq<Entry>, i: nat)
    returns (e: Entry)
    requires |initial| == |internal| == |found| == |entries| && i < |initial| && entries[i] == initial[i]
    requires AllCandidates(initial, internal, providers, found) && AllClaims(internal, found, claims)
    ensures SpanOutcome(initial, internal, providers, entries, i, e)
  {
    hide AllOccurrences, Sole, Crosses;
    var text, candidates := internal[i].content, found[i];
    assert Candidates(initial, internal, providers, i, candidates);
    if initial[i].mapping.Some? || text == "" { return entries[i]; }
    if |candidates| != 1 {
      NotOneFound(initial, internal, providers, i, candidates);
      return if |candidates| > 1 then entries[i].(ambiguous := true) else entries[i];
    }
    var o := candidates[0];
    var key := KeyOf(o, text);
    assert candidates == [o];
    OneFound(initial, internal, providers, i, candidates, o);
    assert Claims(internal, found, i, key);
    var orders := if key in claims then claims[key] else [];
    assert ClaimsOf(internal, found, key, orders);
    SoleIffOneClaim(initial, internal, providers, found, i, key, orders);
    var crossed := Crosses(entries, i, o.message, o.start, o.start + |text|);
    OnlyClaim(initial, internal, providers, entries, i, o);
    if |orders| != 1 || crossed { return entries[i].(ambiguous := true); }
    e := entries[i].(mapping := Some(SpanMapping(o, text)));
  }

  lemma NotOneFound(initial: seq<Entry>, internal: seq<Message>, providers: seq<Message>, i: nat, found: seq<Occurrence>)
    requires |initial| == |internal| && i < |internal| && Candidates(initial, internal, providers, i, found)
    requires initial[i].mapping.None? && internal[i].content != "" && |found| != 1
    ensures forall o :: !OnlyAt(Contents(providers), internal[i].content, o)
    ensures found == [] <==> Absent(Contents(providers), internal[i].content)
  {
    var contents, text := Contents(providers), internal[i].content;
    forall o ensures !OnlyAt(contents, text, o) {
      OneFound(initial, internal, providers, i, found, o);
    }
    if found != [] { assert FoundAt(contents, text, found[0]); }
  }

  lemma OnlyClaim(initial: seq<Entry>, internal: seq<Message>, providers: seq<Message>, before: seq<Entry>, i: nat, o: Occurrence)
    requires |initial| == |internal| && i < |internal| && OnlyAt(Contents(providers), internal[i].content, o)
    ensures !Absent(Contents(providers), internal[i].content)
    ensures Claimable(initial, internal, providers, before, i, o) <==>
      Sole(initial, internal, i) && !Crosses(before, i, o.message, o.start, o.start + |internal[i].content|)
    ensures forall p :: Claimable(initial, internal, providers, before, i, p) ==> p == o
  {
    assert FoundAt(Contents(providers), internal[i].content, o);
  }

  method MatchSpans(initial: seq<Entry>, internal: seq<Message>, providers: seq<Message>) returns (entries: seq<Entry>)
    requires |initial| == |internal|
    ensures |entries| == |initial| && SpansMatched(initial, internal, providers, entries)
  {
    hide SpanOutcome, AllClaims, AllCandidates;
    var found, claims := FindCandidates(initial, internal, providers);
    entries := initial;
    ghost var done: seq<Entry> := [];
    for i := 0 to |initial|
      invariant |done| == i && entries == State(initial, done) && SpansMatched(initial, internal, providers, done)
    {
      var e := SettleSpan(initial, internal, providers, found, claims, entries, i);
      MoreMatched(initial, internal, providers, done, e);
      entries := entries[i := e];
      done := done + [e];
      assert entries == State(initial, done);
    }
    assert entries == done;
  }

  // ---- The invariant ----

  lemma SpanStepSound(initial: seq<Entry>, internal: seq<Message>, providers: seq<Message>, before: seq<Entry>, i: nat, e: Entry)
    requires |initial| == |internal| && i < |internal| && |before| == |initial| && before[i] == initial[i]
    requires Sound(before, internal, providers) && SpanOutcome(initial, internal, providers, before, i, e)
    ensures Sound(before[i := e], internal, providers)
  {
    hide Sole, Crosses;
    assert Describes(before[i], i, internal[i]) && MappedRight(before[i], internal[i], providers);
    var text := internal[i].content;
    if initial[i].mapping.Some? || text == "" || Absent(Contents(providers), text) {
      assert before[i := e] == before;
    } else if o :| Claimable(initial, internal, providers, before, i, o) {
      assert FoundAt(Contents(providers), text, o);
      SoundUpdate(before, internal, providers, i, e);
    } else {
      SoundUpdate(before, internal, providers, i, e);
    }
  }

  /** The second pass keeps the trace invariant. */
  lemma {:induction false} SpansSound(initial: seq<Entry>, internal: seq<Message>, providers: seq<Message>, done: seq<Entry>)
    requires |initial| == |internal| && Sound(initial, internal, providers)
    requires SpansMatched(initial, internal, providers, done)
    ensures Sound(State(initial, done), internal, providers)
    decreases |done|
  {
    hide SpanOutcome, Sound;
    if done == [] {
      assert State(initial, done) == initial;
    } else {
      var n := |done| - 1;
      var init := done[..n];
      forall k | 0 <= k < n ensures SpanOutcome(initial, internal, providers, State(initial, init[..k]), k, init[k]) {
        assert init[..k] == done[..k];
        assert SpanOutcome(initial, internal, providers, State(initial, done[..k]), k, done[k]);
      }
      SpansSound(initial, internal, providers, init);
      SpanStepSound(initial, internal, providers, State(initial, init), n, done[n]);
      assert State(initial, init)[n := done[n]] == State(initial, done);
    }
  }
}
