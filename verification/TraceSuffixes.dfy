/** The fourth pass of buildPromptTrace (runtime.js): assistant replies that the provider prompt holds without one
    common suffix are mapped to the shortened messages between their neighbouring user messages. */
module TraceSuffixes {
  import opened MessageSpans
  import opened PromptEntries
  import opened TraceEntries

  predicate IsChat(e: Entry) {
    e.identifier.ChatHistory? && e.identifier.ordinal >= 1
  }

  /** The last of the first `n` entries that carries this chat-history ordinal. */
  function LastWith(entries: seq<Entry>, n: nat, ordinal: int): (r: Option<nat>)
    requires n <= |entries|
    ensures r.Some? ==> r.value < n && IsChat(entries[r.value]) && entries[r.value].identifier.ordinal == ordinal
    ensures r.Some? ==> forall j :: r.value < j < n && IsChat(entries[j]) ==> entries[j].identifier.ordinal != ordinal
    ensures r.None? ==> forall j :: 0 <= j < n && IsChat(entries[j]) ==> entries[j].identifier.ordinal != ordinal
  {
    if n == 0 then None
    else if IsChat(entries[n - 1]) && entries[n - 1].identifier.ordinal == ordinal then Some(n - 1)
    else LastWith(entries, n - 1, ordinal)
  }

  /** The user message with this ordinal is mapped to provider message `p`. */
  predicate UserAt(entries: seq<Entry>, i: nat, p: int) {
    i < |entries| && entries[i].role == "user" && entries[i].mapping.Some? && entries[i].mapping.value.provider == p
  }

  datatype Candidate = Candidate(order: nat, provider: int, suffix: string)

  /** The text that provider message `p` leaves off the reply, when it does so in an acceptable way. */
  predicate LeavesOff(reply: Message, p: Message, suffix: string) {
    && p.role == "assistant" && p.name == reply.name && p.content != ""
    && p.content <= reply.content && suffix == reply.content[|p.content|..]
    && 1 <= |suffix| <= 1024 && '\0' !in suffix
  }

  predicate IsCandidate(entries: seq<Entry>, internal: seq<Message>, providers: seq<Message>, i: nat, p: int)
    requires |entries| == |internal| && i < |entries|
  {
    var e := entries[i];
    && e.mapping.None? && e.sourceLabel == "host_recent_chat" && e.role == "assistant" && IsChat(e)
    && 0 <= p < |providers|
    && (var next := LastWith(entries, |entries|, e.identifier.ordinal + 1);
        next.Some? && UserAt(entries, next.value, p + 1))
    && (var previous := LastWith(entries, |entries|, e.identifier.ordinal - 1);
        previous.None? || UserAt(entries, previous.value, p - 1))
    && |providers[p].content| <= |internal[i].content|
    && LeavesOff(Message(e.role, e.name, internal[i].content), providers[p], internal[i].content[|providers[p].content|..])
  }

  /** The provider message right before the next user message, or -1. */
  function ProviderOf(entries: seq<Entry>, i: nat): int
    requires i < |entries|
  {
    if !IsChat(entries[i]) then -1
    else
      var next := LastWith(entries, |entries|, entries[i].identifier.ordinal + 1);
      if next.Some? && entries[next.value].mapping.Some? then entries[next.value].mapping.value.provider - 1 else -1
  }

  lemma OneProvider(entries: seq<Entry>, internal: seq<Message>, providers: seq<Message>, i: nat, p: int)
    requires |entries| == |internal| && i < |entries| && IsCandidate(entries, internal, providers, i, p)
    ensures p == ProviderOf(entries, i)
  {
    hide LastWith;
  }

  function CandidateOf(entries: seq<Entry>, internal: seq<Message>, providers: seq<Message>, i: nat): (r: Option<Candidate>)
    requires |entries| == |internal| && i < |entries|
    ensures r.Some? <==> IsCandidate(entries, internal, providers, i, ProviderOf(entries, i))
    ensures r.Some? ==> r.value.order == i && r.value.provider == ProviderOf(entries, i)
    ensures r.Some? ==> 0 <= r.value.provider < |providers|
    ensures r.Some? ==> providers[r.value.provider].content + r.value.suffix == internal[i].content
  {
    var p := ProviderOf(entries, i);
    if IsCandidate(entries, internal, providers, i, p) then
      Some(Candidate(i, p, internal[i].content[|providers[p].content|..]))
    else None
  }

  /** Entry `j` is the last one called "chatHistory-<n>"; ordinals start at one. */
  ghost predicate LastNumbered(entries: seq<Entry>, j: int, n: int) {
    && 0 <= j < |entries| && entries[j].identifier.ChatHistory? && entries[j].identifier.ordinal == n >= 1
    && forall k :: j < k < |entries| && entries[k].identifier.ChatHistory? ==> entries[k].identifier.ordinal != n
  }

  ghost predicate IsUserAt(e: Entry, p: int) {
    e.role == "user" && e.mapping.Some? && e.mapping.value.provider == p
  }

  /** Reply `i`, still unmapped, is held by provider message `p` but for a suffix of at most 1024 characters; the message
      stands right before the next user message and right after the previous one, if the prompt has one. */
  ghost predicate CutBetweenUsers(
      entries: seq<Entry>, internal: seq<Message>, providers: seq<Message>, i: int, p: int, suffix: string)
    requires |entries| == |internal| && 0 <= i < |entries|
  {
    var e := entries[i];
    && e.mapping.None? && e.sourceLabel == "host_recent_chat" && e.role == "assistant"
    && e.identifier.ChatHistory? && e.identifier.ordinal > 0
    && 0 <= p < |providers| && providers[p].role == "assistant" && providers[p].name == e.name && providers[p].content != ""
    && internal[i].content == providers[p].content + suffix
    && 0 < |suffix| < 1025 && (forall k :: 0 <= k < |suffix| ==> suffix[k] != '\0')
    && (exists j :: LastNumbered(entries, j, e.identifier.ordinal + 1) && IsUserAt(entries[j], p + 1))
    && (forall j :: LastNumbered(entries, j, e.identifier.ordinal - 1) ==> IsUserAt(entries[j], p - 1))
  }

  lemma LastWithIff(entries: seq<Entry>, n: int, j: int)
    ensures LastNumbered(entries, j, n) <==>
      LastWith(entries, |entries|, n).Some? && LastWith(entries, |entries|, n).value == j
  {
  }

  /** The candidates are exactly the replies cut short between user messages. */
  lemma CandidateIff(
      entries: seq<Entry>, internal: seq<Message>, providers: seq<Message>, i: nat, p: int, suffix: string)
    requires |entries| == |internal| && i < |entries|
    ensures CandidateOf(entries, internal, providers, i) == Some(Candidate(i, p, suffix))
       <==> CutBetweenUsers(entries, internal, providers, i, p, suffix)
  {
    hide LastWith, LastNumbered;
    forall n: int, j: int ensures LastNumbered(entries, j, n) <==>
      LastWith(entries, |entries|, n).Some? && LastWith(entries, |entries|, n).value == j
    {
      LastWithIff(entries, n, j);
    }
    if 0 <= p < |providers| { SameSuffix(entries, internal, providers, i, p, suffix); }
    if IsCandidate(entries, internal, providers, i, p) { OneProvider(entries, internal, providers, i, p); }
  }

  lemma SameSuffix(entries: seq<Entry>, internal: seq<Message>, providers: seq<Message>, i: nat, p: int, suffix: string)
    requires |entries| == |internal| && i < |entries| && 0 <= p < |providers|
    ensures internal[i].content == providers[p].content + suffix <==>
      providers[p].content <= internal[i].content && suffix == internal[i].content[|providers[p].content|..]
  {
  }

  // ---- The pass ----

  /** At least two replies are cut short, all by the same suffix and in different provider messages. */
  ghost predicate CommonSuffix(entries: seq<Entry>, internal: seq<Message>, providers: seq<Message>)
    requires |entries| == |internal|
  {
    && (exists i, j :: 0 <= i < j < |entries| && CandidateOf(entries, internal, providers, i).Some?
                       && CandidateOf(entries, internal, providers, j).Some?)
    && forall i, j :: 0 <= i < j < |entries| && CandidateOf(entries, internal, providers, i).Some?
                      && CandidateOf(entries, internal, providers, j).Some? ==>
         && CandidateOf(entries, internal, providers, i).value.suffix == CandidateOf(entries, internal, providers, j).value.suffix
         && CandidateOf(entries, internal, providers, i).value.provider != CandidateOf(entries, internal, providers, j).value.provider
  }

  function SuffixMapping(providers: seq<Message>, p: int): Mapping
    requires 0 <= p < |providers|
  {
    Mapping(p, 0, |providers[p].content|, StableAssistantSuffix)
  }

  /** Entry `i` after the pass, when the replies do share a suffix. */
  ghost predicate SuffixOutcome(entries: seq<Entry>, internal: seq<Message>, providers: seq<Message>, i: int, e: Entry)
    requires |entries| == |internal| && 0 <= i < |entries|
  {
    var c := CandidateOf(entries, internal, providers, i);
    e == if c.Some? && !Occupied(entries, i, c.value.provider)
         then entries[i].(mapping := Some(Mapping(c.value.provider, 0, |providers[c.value.provider].content|, StableAssistantSuffix)))
         else entries[i]
  }

  ghost predicate SuffixesMatched(entries: seq<Entry>, internal: seq<Message>, providers: seq<Message>, result: seq<Entry>)
    requires |entries| == |internal|
  {
    && |result| == |entries|
    && if CommonSuffix(entries, internal, providers)
       then forall i :: 0 <= i < |entries| ==> SuffixOutcome(entries, internal, providers, i, result[i])
       else result == entries
  }

  /** The candidates among the first `n` entries, in internal order. */
  ghost predicate Collected(entries: seq<Entry>, internal: seq<Message>, providers: seq<Message>, n: nat, found: seq<Candidate>)
    requires |entries| == |internal| && n <= |entries|
  {
    && (forall k :: 0 <= k < |found| ==>
          found[k].order < n && CandidateOf(entries, internal, providers, found[k].order) == Some(found[k]))
    && (forall i: nat :: i < n && CandidateOf(entries, internal, providers, i).Some? ==>
          CandidateOf(entries, internal, providers, i).value in found)
    && (forall j, k :: 0 <= j < k < |found| ==> found[j].order < found[k].order)
  }

  method Collect(entries: seq<Entry>, internal: seq<Message>, providers: seq<Message>) returns (found: seq<Candidate>)
    requires |entries| == |internal|
    ensures Collected(entries, internal, providers, |entries|, found)
  {
    hide CandidateOf;
    found := [];
    for i := 0 to |entries|
      invariant Collected(entries, internal, providers, i, found)
    {
      var c := CandidateOf(entries, internal, providers, i);
      if c.Some? {
        assert c.value.order == i;
        found := found + [c.value];
      }
    }
  }

  lemma {:induction false} DistinctSize<T>(xs: seq<T>)
    ensures |set x | x in xs| <= |xs|
    ensures |set x | x in xs| == |xs| <==> forall j, k :: 0 <= j < k < |xs| ==> xs[j] != xs[k]
  {
    if xs != [] {
      var init, last := xs[..|xs| - 1], xs[|xs| - 1];
      DistinctSize(init);
      assert xs == init + [last];
      assert (set x | x in xs) == (set x | x in init) + {last};
      if last in init {
        assert (set x | x in xs) == (set x | x in init);
        var k :| 0 <= k < |init| && init[k] == last;
        assert xs[k] == xs[|xs| - 1];
      } else {
        assert |set x | x in xs| == |set x | x in init| + 1;
      }
    }
  }

  function Providers(found: seq<Candidate>): (r: seq<int>)
    ensures |r| == |found| && forall k :: 0 <= k < |r| ==> r[k] == found[k].provider
  {
    seq(|found|, k requires 0 <= k < |found| => found[k].provider)
  }

  function Suffixes(found: seq<Candidate>): set<string> {
    set c | c in found :: c.suffix
  }

  lemma OneSuffix(found: seq<Candidate>)
    requires found != []
    ensures |Suffixes(found)| == 1 <==> forall j, k :: 0 <= j < k < |found| ==> found[j].suffix == found[k].suffix
  {
    var s := found[0].suffix;
    assert found[0] in found && s in Suffixes(found);
    if forall j, k :: 0 <= j < k < |found| ==> found[j].suffix == found[k].suffix {
      assert Suffixes(found) == {s};
    }
    if |Suffixes(found)| == 1 {
      Singleton(Suffixes(found), s);
      forall k | 0 <= k < |found| ensures found[k].suffix == s {
        assert found[k] in found && found[k].suffix in Suffixes(found);
      }
    }
  }

  lemma Singleton<T>(s: set<T>, x: T)
    requires |s| == 1 && x in s
    ensures s == {x}
  {
    assert |s - {x}| == 0;
  }

  lemma CollectedCommon(entries: seq<Entry>, internal: seq<Message>, providers: seq<Message>, found: seq<Candidate>)
    requires |entries| == |internal| && Collected(entries, internal, providers, |entries|, found)
    ensures CommonSuffix(entries, internal, providers) <==>
      && |found| >= 2
      && (forall j, k :: 0 <= j < k < |found| ==> found[j].suffix == found[k].suffix)
      && (forall j, k :: 0 <= j < k < |found| ==> found[j].provider != found[k].provider)
  {
    hide CandidateOf;
    if CommonSuffix(entries, internal, providers) {
      CommonAmongFound(entries, internal, providers, found);
    }
    if |found| >= 2 && (forall j, k :: 0 <= j < k < |found| ==> found[j].suffix == found[k].suffix)
       && (forall j, k :: 0 <= j < k < |found| ==> found[j].provider != found[k].provider)
    {
      FoundAreCommon(entries, internal, providers, found);
    }
  }

  lemma TwoFound(entries: seq<Entry>, internal: seq<Message>, providers: seq<Message>, found: seq<Candidate>)
    requires |entries| == |internal| && Collected(entries, internal, providers, |entries|, found)
    requires CommonSuffix(entries, internal, providers)
    ensures |found| >= 2
  {
    hide CandidateOf, IsCandidate, ProviderOf;
    var i, j :| 0 <= i < j < |entries| && CandidateOf(entries, internal, providers, i).Some?
                && CandidateOf(entries, internal, providers, j).Some?;
    OwnOrder(entries, internal, providers, i);
    OwnOrder(entries, internal, providers, j);
    var p :| 0 <= p < |found| && found[p] == CandidateOf(entries, internal, providers, i).value;
    var q :| 0 <= q < |found| && found[q] == CandidateOf(entries, internal, providers, j).value;
  }

  lemma CommonAmongFound(entries: seq<Entry>, internal: seq<Message>, providers: seq<Message>, found: seq<Candidate>)
    requires |entries| == |internal| && Collected(entries, internal, providers, |entries|, found)
    requires CommonSuffix(entries, internal, providers)
    ensures |found| >= 2
    ensures forall j, k :: 0 <= j < k < |found| ==> found[j].suffix == found[k].suffix && found[j].provider != found[k].provider
  {
    hide CandidateOf;
    TwoFound(entries, internal, providers, found);
    forall j, k | 0 <= j < k < |found| ensures found[j].suffix == found[k].suffix && found[j].provider != found[k].provider {
      assert CandidateOf(entries, internal, providers, found[j].order) == Some(found[j]);
      assert CandidateOf(entries, internal, providers, found[k].order) == Some(found[k]);
    }
  }

  lemma FoundAreCommon(entries: seq<Entry>, internal: seq<Message>, providers: seq<Message>, found: seq<Candidate>)
    requires |entries| == |internal| && Collected(entries, internal, providers, |entries|, found) && |found| >= 2
    requires forall j, k :: 0 <= j < k < |found| ==> found[j].suffix == found[k].suffix && found[j].provider != found[k].provider
    ensures CommonSuffix(entries, internal, providers)
  {
    hide CandidateOf;
    assert found[0].order < found[1].order;
    forall i, j | 0 <= i < j < |entries| && CandidateOf(entries, internal, providers, i).Some?
                  && CandidateOf(entries, internal, providers, j).Some?
      ensures CandidateOf(entries, internal, providers, i).value.suffix == CandidateOf(entries, internal, providers, j).value.suffix
      ensures CandidateOf(entries, internal, providers, i).value.provider != CandidateOf(entries, internal, providers, j).value.provider
    {
      var p :| 0 <= p < |found| && found[p] == CandidateOf(entries, internal, providers, i).value;
      var q :| 0 <= q < |found| && found[q] == CandidateOf(entries, internal, providers, j).value;
      OwnOrder(entries, internal, providers, i);
      OwnOrder(entries, internal, providers, j);
      assert p != q;
    }
  }

  lemma OwnOrder(entries: seq<Entry>, internal: seq<Message>, providers: seq<Message>, i: nat)
    requires |entries| == |internal| && i < |entries| && CandidateOf(entries, internal, providers, i).Some?
    ensures CandidateOf(entries, internal, providers, i).value.order == i
    ensures 0 <= CandidateOf(entries, internal, providers, i).value.provider < |providers|
    ensures entries[i].mapping.None?
  {
    hide LastWith;
  }

  /** Part-way through: the candidates before `k` are settled, everything else is as it was. */
  ghost predicate Partly(entries: seq<Entry>, internal: seq<Message>, providers: seq<Message>, found: seq<Candidate>, k: nat, result: seq<Entry>)
    requires |entries| == |internal| && k <= |found|
  {
    && |result| == |entries|
    && (forall i :: 0 <= i < |entries| && (forall j :: 0 <= j < k ==> found[j].order != i) ==> result[i] == entries[i])
    && (forall j :: 0 <= j < k && found[j].order < |entries| ==> SuffixOutcome(entries, internal, providers, found[j].order, result[found[j].order]))
  }

  lemma SameOccupancy(entries: seq<Entry>, internal: seq<Message>, providers: seq<Message>, found: seq<Candidate>, k: nat, result: seq<Entry>)
    requires |entries| == |internal| && k < |found| && Collected(entries, internal, providers, |entries|, found)
    requires Partly(entries, internal, providers, found, k, result)
    requires forall j :: 0 <= j < k ==> found[j].provider != found[k].provider
    ensures Occupied(result, found[k].order, found[k].provider) <==> Occupied(entries, found[k].order, found[k].provider)
  {
    hide CandidateOf;
    forall i | 0 <= i < |entries|
      ensures (result[i].mapping.Some? && result[i].mapping.value.provider == found[k].provider)
         <==> (entries[i].mapping.Some? && entries[i].mapping.value.provider == found[k].provider)
    {
      if j :| 0 <= j < k && found[j].order == i {
        assert SuffixOutcome(entries, internal, providers, i, result[i]);
        OwnOrder(entries, internal, providers, i);
      }
    }
  }

  lemma MorePartly(entries: seq<Entry>, internal: seq<Message>, providers: seq<Message>, found: seq<Candidate>, k: nat, result: seq<Entry>, e: Entry)
    requires |entries| == |internal| && k < |found| && Collected(entries, internal, providers, |entries|, found)
    requires Partly(entries, internal, providers, found, k, result) && found[k].order < |entries|
    requires SuffixOutcome(entries, internal, providers, found[k].order, e)
    ensures result[found[k].order] == entries[found[k].order]
    ensures Partly(entries, internal, providers, found, k + 1, result[found[k].order := e])
  {
    hide CandidateOf, SuffixOutcome;
  }

  method ApplySuffixes(entries: seq<Entry>, internal: seq<Message>, providers: seq<Message>, found: seq<Candidate>) returns (result: seq<Entry>)
    requires |entries| == |internal| && Collected(entries, internal, providers, |entries|, found)
    requires forall j, k :: 0 <= j < k < |found| ==> found[j].provider != found[k].provider
    ensures Partly(entries, internal, providers, found, |found|, result)
  {
    hide CandidateOf, Occupied, Partly;
    result := entries;
    NonePartly(entries, internal, providers, found);
    for k := 0 to |found|
      invariant |result| == |entries| && Partly(entries, internal, providers, found, k, result)
    {
      var c := found[k];
      OwnOrder(entries, internal, providers, c.order);
      SameOccupancy(entries, internal, providers, found, k, result);
      var e := if Occupied(result, c.order, c.provider) then entries[c.order]
               else entries[c.order].(mapping := Some(SuffixMapping(providers, c.provider)));
      MorePartly(entries, internal, providers, found, k, result, e);
      assert result[c.order := result[c.order]] == result;
      if !Occupied(result, c.order, c.provider) {
        result := result[c.order := result[c.order].(mapping := Some(SuffixMapping(providers, c.provider)))];
      }
    }
  }

  lemma NonePartly(entries: seq<Entry>, internal: seq<Message>, providers: seq<Message>, found: seq<Candidate>)
    requires |entries| == |internal|
    ensures Partly(entries, internal, providers, found, 0, entries)
  {
  }

  lemma PartlyIsMatched(entries: seq<Entry>, internal: seq<Message>, providers: seq<Message>, found: seq<Candidate>, result: seq<Entry>)
    requires |entries| == |internal| && Collected(entries, internal, providers, |entries|, found)
    requires Partly(entries, internal, providers, found, |found|, result) && CommonSuffix(entries, internal, providers)
    ensures SuffixesMatched(entries, internal, providers, result)
  {
    hide CandidateOf, CommonSuffix;
    forall i | 0 <= i < |entries| ensures SuffixOutcome(entries, internal, providers, i, result[i]) {
      if CandidateOf(entries, internal, providers, i).Some? {
        OwnOrder(entries, internal, providers, i);
        var j :| 0 <= j < |found| && found[j] == CandidateOf(entries, internal, providers, i).value;
        assert found[j].order == i;
      }
    }
  }

  method MatchSuffixes(entries: seq<Entry>, internal: seq<Message>, providers: seq<Message>) returns (result: seq<Entry>)
    requires |entries| == |internal|
    ensures SuffixesMatched(entries, internal, providers, result)
  {
    hide CandidateOf, CommonSuffix, Collected, Partly;
    var found := Collect(entries, internal, providers);
    CollectedCommon(entries, internal, providers, found);
    DistinctSize(Providers(found));
    if |found| < 2 { return entries; }
    OneSuffix(found);
    if |Suffixes(found)| != 1 || |set p | p in Providers(found)| != |found| { return entries; }
    result := ApplySuffixes(entries, internal, providers, found);
    PartlyIsMatched(entries, internal, providers, found, result);
  }

  // ---- The invariant ----

  lemma SuffixFaithful(entries: seq<Entry>, internal: seq<Message>, providers: seq<Message>, i: nat)
    requires |entries| == |internal| && i < |entries| && CandidateOf(entries, internal, providers, i).Some?
    ensures var p := CandidateOf(entries, internal, providers, i).value.provider;
      && 0 <= p < |providers| && Within(SuffixMapping(providers, p), providers)
      && Faithful(entries[i], internal[i], SuffixMapping(providers, p), providers)
  {
    hide LastWith;
  }

  lemma OutcomesApart(entries: seq<Entry>, internal: seq<Message>, providers: seq<Message>, result: seq<Entry>, i: nat, j: nat)
    requires |entries| == |internal| == |result| && i < j < |result| && Separate(entries) && CommonSuffix(entries, internal, providers)
    requires SuffixOutcome(entries, internal, providers, i, result[i]) && SuffixOutcome(entries, internal, providers, j, result[j])
    requires result[i].mapping.Some? && result[j].mapping.Some?
    ensures MapsApart(result[i].mapping.value, result[j].mapping.value)
  {
    hide CandidateOf;
    if CandidateOf(entries, internal, providers, i).Some? { OwnOrder(entries, internal, providers, i); }
    if CandidateOf(entries, internal, providers, j).Some? { OwnOrder(entries, internal, providers, j); }
  }

  /** The fourth pass keeps the trace invariant. */
  lemma SuffixesSound(entries: seq<Entry>, internal: seq<Message>, providers: seq<Message>, result: seq<Entry>)
    requires Sound(entries, internal, providers) && SuffixesMatched(entries, internal, providers, result)
    ensures Sound(result, internal, providers)
  {
    hide CandidateOf, CommonSuffix, Faithful, Within;
    if CommonSuffix(entries, internal, providers) {
      forall i | 0 <= i < |result| ensures Describes(result[i], i, internal[i]) && MappedRight(result[i], internal[i], providers) {
        assert Describes(entries[i], i, internal[i]) && MappedRight(entries[i], internal[i], providers);
        assert SuffixOutcome(entries, internal, providers, i, result[i]);
        OutcomeRight(entries, internal, providers, i, result[i]);
      }
      forall i, j | 0 <= i < j < |result| && result[i].mapping.Some? && result[j].mapping.Some?
        ensures MapsApart(result[i].mapping.value, result[j].mapping.value)
      {
        assert SuffixOutcome(entries, internal, providers, i, result[i]) && SuffixOutcome(entries, internal, providers, j, result[j]);
        OutcomesApart(entries, internal, providers, result, i, j);
      }
    }
  }

  lemma OutcomeRight(entries: seq<Entry>, internal: seq<Message>, providers: seq<Message>, i: nat, e: Entry)
    requires |entries| == |internal| && i < |entries| && SuffixOutcome(entries, internal, providers, i, e)
    requires Describes(entries[i], i, internal[i]) && MappedRight(entries[i], internal[i], providers)
    ensures Describes(e, i, internal[i]) && MappedRight(e, internal[i], providers)
  {
    hide CandidateOf;
    if CandidateOf(entries, internal, providers, i).Some? {
      OwnOrder(entries, internal, providers, i);
      SuffixFaithful(entries, internal, providers, i);
    }
  }
}
