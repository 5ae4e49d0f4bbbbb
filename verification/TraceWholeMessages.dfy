/** The first pass of buildPromptTrace (runtime.js): provider messages equal to an internal message are taken
    first come, first served, from a queue per message shape. */
module TraceWholeMessages {
  import opened MessageSpans
  import opened PromptEntries
  import opened TraceEntries

  /** What must agree among equal messages for their queue to be usable. */
  datatype Identity = Identity(
    identifier: Identifier, sourceLabel: string, policy: Policy, grantId: Option<string>, grantIssue: Option<string>, component: Option<string>)

  function IdentityOf(e: Entry): Identity {
    Identity(e.identifier, e.sourceLabel, e.policy, if e.grant.Some? then Some(e.grant.value.id) else None, e.grantIssue, e.component)
  }

  /** The two entries stand for one source: the same identity, policy, grant and component. */
  ghost predicate OneSource(a: Entry, b: Entry) {
    && a.identifier == b.identifier && a.sourceLabel == b.sourceLabel && a.policy == b.policy
    && (a.grant.Some? <==> b.grant.Some?) && (a.grant.Some? && b.grant.Some? ==> a.grant.value.id == b.grant.value.id)
    && a.grantIssue == b.grantIssue && a.component == b.component
  }

  /** How many of the first `k` messages equal `m`. */
  ghost function Count(messages: seq<Message>, m: Message, k: nat): (c: nat)
    requires k <= |messages|
    ensures c <= k
  {
    if k == 0 then 0 else Count(messages, m, k - 1) + (if messages[k - 1] == m then 1 else 0)
  }

  /** Where `m` stands among the first `k` messages. */
  ghost function Positions(messages: seq<Message>, m: Message, k: nat): (r: seq<nat>)
    requires k <= |messages|
    ensures |r| == Count(messages, m, k)
    ensures forall c :: 0 <= c < |r| ==> r[c] < k && messages[r[c]] == m && Count(messages, m, r[c]) == c
  {
    if k == 0 then [] else Positions(messages, m, k - 1) + (if messages[k - 1] == m then [k - 1] else [])
  }

  lemma {:induction false} CountGrows(messages: seq<Message>, m: Message, j: nat, k: nat)
    requires j <= k <= |messages|
    ensures Count(messages, m, j) <= Count(messages, m, k)
    ensures j < k && messages[j] == m ==> Count(messages, m, j) < Count(messages, m, k)
    decreases k
  {
    if j < k { CountGrows(messages, m, j, k - 1); }
  }

  /** An element is found in the list of its positions at its own count. */
  lemma {:induction false} PositionOf(messages: seq<Message>, i: nat, k: nat)
    requires i < k <= |messages|
    ensures Count(messages, messages[i], i) < Count(messages, messages[i], k)
    ensures Positions(messages, messages[i], k)[Count(messages, messages[i], i)] == i
    decreases k
  {
    if i < k - 1 { PositionOf(messages, i, k - 1); }
  }

  /** Equal messages that stand for different sources. */
  ghost predicate Ambiguous(entries: seq<Entry>, internal: seq<Message>, m: Message)
    requires |entries| == |internal|
  {
    exists i, j :: 0 <= i < |entries| && 0 <= j < |entries| && internal[i] == m && internal[j] == m
                   && !OneSource(entries[i], entries[j])
  }

  /** Internal message `i` and provider message `p` are the same message, the same number of times into their lists. */
  ghost predicate Paired(entries: seq<Entry>, internal: seq<Message>, providers: seq<Message>, i: int, p: int)
    requires |entries| == |internal|
  {
    && 0 <= i < |internal| && 0 <= p < |providers|
    && internal[i] == providers[p] && !Ambiguous(entries, internal, internal[i])
    && Count(internal, internal[i], i) == Count(providers, providers[p], p)
  }

  lemma PairedOnce(entries: seq<Entry>, internal: seq<Message>, providers: seq<Message>, i: int, p: int, q: int)
    requires |entries| == |internal|
    requires Paired(entries, internal, providers, i, p) && Paired(entries, internal, providers, i, q)
    ensures p == q
  {
    if p < q { CountGrows(providers, providers[p], p, q); }
    if q < p { CountGrows(providers, providers[p], q, p); }
  }

  lemma PairedBack(entries: seq<Entry>, internal: seq<Message>, providers: seq<Message>, i: int, j: int, p: int)
    requires |entries| == |internal|
    requires Paired(entries, internal, providers, i, p) && Paired(entries, internal, providers, j, p)
    ensures i == j
  {
    if i < j { CountGrows(internal, internal[i], i, j); }
    if j < i { CountGrows(internal, internal[i], j, i); }
  }

  ghost predicate QueuesOf(internal: seq<Message>, n: nat, queues: map<Message, seq<nat>>)
    requires n <= |internal|
  {
    forall m :: (if m in queues then queues[m] else []) == Positions(internal, m, n)
  }

  lemma MoreQueues(internal: seq<Message>, n: nat, queues: map<Message, seq<nat>>)
    requires n < |internal| && QueuesOf(internal, n, queues)
    ensures var m := internal[n];
      QueuesOf(internal, n + 1, queues[m := (if m in queues then queues[m] else []) + [n]])
  {
  }

  method BuildQueues(internal: seq<Message>) returns (queues: map<Message, seq<nat>>)
    ensures QueuesOf(internal, |internal|, queues)
  {
    hide Positions, QueuesOf;
    queues := map[];
    NoQueues(internal);
    for index := 0 to |internal|
      invariant QueuesOf(internal, index, queues)
    {
      var m := internal[index];
      var queue := if m in queues then queues[m] else [];
      MoreQueues(internal, index, queues);
      queues := queues[m := queue + [index]];
    }
  }

  lemma NoQueues(internal: seq<Message>)
    ensures QueuesOf(internal, 0, map[])
  {
  }

  predicate Mixed(entries: seq<Entry>, queue: seq<nat>)
    requires forall i :: i in queue ==> i < |entries|
  {
    |set i | i in queue :: IdentityOf(entries[i])| > 1
  }

  lemma AmbiguousIsMixed(entries: seq<Entry>, internal: seq<Message>, m: Message)
    requires |entries| == |internal| && Ambiguous(entries, internal, m)
    ensures Mixed(entries, Positions(internal, m, |internal|))
  {
    hide Positions;
    var queue := Positions(internal, m, |internal|);
    var identities := set i | i in queue :: IdentityOf(entries[i]);
    var i, j :| 0 <= i < |entries| && 0 <= j < |entries| && internal[i] == m && internal[j] == m
                && IdentityOf(entries[i]) != IdentityOf(entries[j]);
    PositionOf(internal, i, |internal|);
    PositionOf(internal, j, |internal|);
    assert i in queue && j in queue;
    TwoElements(identities, IdentityOf(entries[i]), IdentityOf(entries[j]));
  }

  lemma MixedIsAmbiguous(entries: seq<Entry>, internal: seq<Message>, m: Message)
    requires |entries| == |internal|
    ensures Mixed(entries, Positions(internal, m, |internal|)) <==> Ambiguous(entries, internal, m)
  {
    if Ambiguous(entries, internal, m) {
      AmbiguousIsMixed(entries, internal, m);
    } else {
      hide Positions;
      var queue := Positions(internal, m, |internal|);
      var identities := set i | i in queue :: IdentityOf(entries[i]);
      if identities != {} {
        var a :| a in identities;
        assert identities == {a};
      }
    }
  }

  lemma TwoElements<T>(s: set<T>, a: T, b: T)
    requires a in s && b in s && a != b
    ensures |s| > 1
  {
    var rest := s - {a};
    assert b in rest && |rest| == |s| - 1;
  }

  lemma EmptyNotAmbiguous(entries: seq<Entry>, internal: seq<Message>, m: Message)
    requires |entries| == |internal| && Positions(internal, m, |internal|) == []
    ensures !Ambiguous(entries, internal, m)
  {
    MixedIsAmbiguous(entries, internal, m);
  }

  method AmbiguousShapes(entries: seq<Entry>, internal: seq<Message>, queues: map<Message, seq<nat>>) returns (shapes: set<Message>)
    requires |entries| == |internal| && QueuesOf(internal, |internal|, queues)
    ensures forall m :: m in shapes <==> Ambiguous(entries, internal, m)
  {
    hide Ambiguous, Mixed;
    shapes := {};
    var keys := queues.Keys;
    while keys != {}
      invariant keys <= queues.Keys
      invariant forall m :: m in shapes ==> Ambiguous(entries, internal, m)
      invariant forall m :: m in queues && m !in keys && Ambiguous(entries, internal, m) ==> m in shapes
      decreases |keys|
    {
      var m :| m in keys;
      MixedIsAmbiguous(entries, internal, m);
      assert queues[m] == Positions(internal, m, |internal|);
      if Mixed(entries, queues[m]) { shapes := shapes + {m}; }
      keys := keys - {m};
    }
    forall m | m !in queues ensures !Ambiguous(entries, internal, m) {
      EmptyNotAmbiguous(entries, internal, m);
    }
  }

  // ---- The pass ----

  function WholeMapping(providers: seq<Message>, p: int): Mapping
    requires 0 <= p < |providers|
  {
    Mapping(p, 0, |providers[p].content|, ExactMessage)
  }

  /** Entry `e` after the first `n` provider messages. */
  ghost predicate TakenBefore(initial: seq<Entry>, internal: seq<Message>, providers: seq<Message>, n: int, i: int, e: Entry)
    requires |initial| == |internal| && 0 <= i < |initial| && 0 <= n <= |providers|
  {
    && (forall p :: 0 <= p < n && Paired(initial, internal, providers, i, p) ==> e == initial[i].(mapping := Some(WholeMapping(providers, p))))
    && ((forall p :: 0 <= p < n ==> !Paired(initial, internal, providers, i, p)) ==> e == initial[i])
  }

  /** The result of the pass: each internal message is mapped to the provider message it is paired with, if any. */
  ghost predicate WholeMessagesMatched(initial: seq<Entry>, internal: seq<Message>, providers: seq<Message>, entries: seq<Entry>)
    requires |initial| == |internal|
  {
    && |entries| == |initial|
    && forall i :: 0 <= i < |entries| ==> TakenBefore(initial, internal, providers, |providers|, i, entries[i])
  }

  ghost predicate Progress(initial: seq<Entry>, internal: seq<Message>, providers: seq<Message>, n: int, entries: seq<Entry>)
    requires |initial| == |internal| && 0 <= n <= |providers|
  {
    && |entries| == |initial|
    && forall i :: 0 <= i < |entries| ==> TakenBefore(initial, internal, providers, n, i, entries[i])
  }

  /** The queue of `m` once `n` provider messages have been served. */
  ghost predicate Served(internal: seq<Message>, providers: seq<Message>, n: nat, m: Message, ambiguous: bool, queue: seq<nat>)
    requires n <= |providers|
  {
    var all, c := Positions(internal, m, |internal|), if ambiguous then 0 else Count(providers, m, n);
    queue == if c <= |all| then all[c..] else []
  }

  ghost predicate AllServed(internal: seq<Message>, providers: seq<Message>, n: nat, ambiguous: set<Message>, queues: map<Message, seq<nat>>)
    requires n <= |providers|
  {
    forall m :: Served(internal, providers, n, m, m in ambiguous, if m in queues then queues[m] else [])
  }

  lemma PairedIsFront(initial: seq<Entry>, internal: seq<Message>, providers: seq<Message>, p: nat, i: nat)
    requires |initial| == |internal| && p < |providers| && i < |internal|
    ensures var all, c := Positions(internal, providers[p], |internal|), Count(providers, providers[p], p);
      Paired(initial, internal, providers, i, p) <==>
        !Ambiguous(initial, internal, providers[p]) && c < |all| && all[c] == i
  {
    if internal[i] == providers[p] { PositionOf(internal, i, |internal|); }
  }

  lemma NextTaken(initial: seq<Entry>, internal: seq<Message>, providers: seq<Message>, p: nat, i: nat, e: Entry)
    requires |initial| == |internal| && p < |providers| && i < |internal|
    requires TakenBefore(initial, internal, providers, p, i, e)
    ensures !Paired(initial, internal, providers, i, p) ==> TakenBefore(initial, internal, providers, p + 1, i, e)
    ensures Paired(initial, internal, providers, i, p) ==>
      e == initial[i] && TakenBefore(initial, internal, providers, p + 1, i, e.(mapping := Some(WholeMapping(providers, p))))
  {
    if Paired(initial, internal, providers, i, p) {
      forall q | 0 <= q < p ensures !Paired(initial, internal, providers, i, q) {
        if Paired(initial, internal, providers, i, q) { PairedOnce(initial, internal, providers, i, p, q); }
      }
    }
  }

  lemma StepPast(initial: seq<Entry>, internal: seq<Message>, providers: seq<Message>, p: nat, entries: seq<Entry>)
    requires |initial| == |internal| && p < |providers| && Progress(initial, internal, providers, p, entries)
    requires forall i :: !Paired(initial, internal, providers, i, p)
    ensures Progress(initial, internal, providers, p + 1, entries)
  {
    forall i | 0 <= i < |entries| ensures TakenBefore(initial, internal, providers, p + 1, i, entries[i]) {
      NextTaken(initial, internal, providers, p, i, entries[i]);
    }
  }

  lemma StepTaking(initial: seq<Entry>, internal: seq<Message>, providers: seq<Message>, p: nat, entries: seq<Entry>, i: nat)
    requires |initial| == |internal| && p < |providers| && Progress(initial, internal, providers, p, entries)
    requires Paired(initial, internal, providers, i, p)
    ensures Progress(initial, internal, providers, p + 1, entries[i := entries[i].(mapping := Some(WholeMapping(providers, p)))])
  {
    var after := entries[i := entries[i].(mapping := Some(WholeMapping(providers, p)))];
    forall j | 0 <= j < |entries| ensures TakenBefore(initial, internal, providers, p + 1, j, after[j]) {
      NextTaken(initial, internal, providers, p, j, entries[j]);
      if j != i && Paired(initial, internal, providers, j, p) { PairedBack(initial, internal, providers, i, j, p); }
    }
  }

  lemma FrontOfQueue(initial: seq<Entry>, internal: seq<Message>, providers: seq<Message>, p: nat, queue: seq<nat>, ambiguous: bool)
    requires |initial| == |internal| && p < |providers|
    requires ambiguous <==> Ambiguous(initial, internal, providers[p])
    requires Served(internal, providers, p, providers[p], ambiguous, queue)
    ensures !ambiguous && queue != [] ==> Paired(initial, internal, providers, queue[0], p)
    ensures ambiguous || queue == [] ==> forall i :: !Paired(initial, internal, providers, i, p)
  {
    forall i | 0 <= i < |internal|
      ensures Paired(initial, internal, providers, i, p) <==> !ambiguous && queue != [] && queue[0] == i
    {
      PairedIsFront(initial, internal, providers, p, i);
    }
  }

  lemma ServeOther(internal: seq<Message>, providers: seq<Message>, p: nat, m: Message, ambiguous: bool, queue: seq<nat>)
    requires p < |providers| && Served(internal, providers, p, m, ambiguous, queue)
    requires m != providers[p] || ambiguous || queue == []
    ensures Served(internal, providers, p + 1, m, ambiguous, queue)
  {
  }

  lemma ServeFront(internal: seq<Message>, providers: seq<Message>, p: nat, queue: seq<nat>)
    requires p < |providers| && Served(internal, providers, p, providers[p], false, queue) && queue != []
    ensures Served(internal, providers, p + 1, providers[p], false, queue[1..])
  {
  }

  lemma ServeNext(internal: seq<Message>, providers: seq<Message>, p: nat, ambiguous: set<Message>, queues: map<Message, seq<nat>>)
    requires p < |providers| && AllServed(internal, providers, p, ambiguous, queues)
    ensures var m := providers[p]; var queue := if m in queues then queues[m] else [];
      AllServed(internal, providers, p + 1, ambiguous, if m !in ambiguous && queue != [] then queues[m := queue[1..]] else queues)
  {
    hide Served;
    var m := providers[p];
    var queue := if m in queues then queues[m] else [];
    var after := if m !in ambiguous && queue != [] then queues[m := queue[1..]] else queues;
    forall x ensures Served(internal, providers, p + 1, x, x in ambiguous, if x in after then after[x] else []) {
      assert Served(internal, providers, p, x, x in ambiguous, if x in queues then queues[x] else []);
      if x == m && m !in ambiguous && queue != [] {
        ServeFront(internal, providers, p, queue);
      } else {
        ServeOther(internal, providers, p, x, x in ambiguous, if x in queues then queues[x] else []);
      }
    }
  }

  method MatchWholeMessages(initial: seq<Entry>, internal: seq<Message>, providers: seq<Message>) returns (entries: seq<Entry>)
    requires |initial| == |internal|
    ensures WholeMessagesMatched(initial, internal, providers, entries)
  {
    hide Paired, TakenBefore, Served, Ambiguous;
    var queues := BuildQueues(internal);
    var ambiguous := AmbiguousShapes(initial, internal, queues);
    entries := initial;
    Start(initial, internal, providers, ambiguous, queues);
    for p := 0 to |providers|
      invariant AllServed(internal, providers, p, ambiguous, queues)
      invariant Progress(initial, internal, providers, p, entries)
    {
      var m := providers[p];
      var queue := if m in queues then queues[m] else [];
      FrontOfQueue(initial, internal, providers, p, queue, m in ambiguous);
      ServeNext(internal, providers, p, ambiguous, queues);
      if m !in ambiguous && queue != [] {
        PairedInside(initial, internal, providers, queue[0], p);
        StepTaking(initial, internal, providers, p, entries, queue[0]);
        queues := queues[m := queue[1..]];
        entries := entries[queue[0] := entries[queue[0]].(mapping := Some(WholeMapping(providers, p)))];
      } else {
        StepPast(initial, internal, providers, p, entries);
      }
    }
  }

  lemma PairedInside(initial: seq<Entry>, internal: seq<Message>, providers: seq<Message>, i: int, p: int)
    requires |initial| == |internal| && Paired(initial, internal, providers, i, p)
    ensures 0 <= i < |initial| && 0 <= p < |providers|
  {
  }

  lemma Start(initial: seq<Entry>, internal: seq<Message>, providers: seq<Message>, ambiguous: set<Message>, queues: map<Message, seq<nat>>)
    requires |initial| == |internal| && QueuesOf(internal, |internal|, queues)
    ensures AllServed(internal, providers, 0, ambiguous, queues)
    ensures Progress(initial, internal, providers, 0, initial)
  {
  }

  /** An entry ends up at provider message `p` if and only if it is paired with it. */
  lemma MappedIffPaired(initial: seq<Entry>, internal: seq<Message>, providers: seq<Message>, entries: seq<Entry>, i: nat, p: int)
    requires |initial| == |internal| && WholeMessagesMatched(initial, internal, providers, entries) && i < |entries|
    requires initial[i].mapping.None?
    ensures entries[i].mapping.Some? && entries[i].mapping.value.provider == p <==> Paired(initial, internal, providers, i, p)
    ensures Paired(initial, internal, providers, i, p) ==> entries[i].mapping == Some(WholeMapping(providers, p))
    ensures entries[i] == initial[i].(mapping := entries[i].mapping)
  {
    hide Paired;
    assert TakenBefore(initial, internal, providers, |providers|, i, entries[i]);
    if Paired(initial, internal, providers, i, p) {
      PairedInside(initial, internal, providers, i, p);
    } else if q :| 0 <= q < |providers| && Paired(initial, internal, providers, i, q) {
      assert entries[i].mapping == Some(WholeMapping(providers, q));
    }
  }

  ghost predicate Unmapped(entries: seq<Entry>) {
    forall i :: 0 <= i < |entries| ==> entries[i].mapping.None?
  }

  /** The first pass establishes the trace invariant. */
  lemma WholeMessagesSound(initial: seq<Entry>, internal: seq<Message>, providers: seq<Message>, entries: seq<Entry>)
    requires AllDescribe(initial, internal) && Unmapped(initial)
    requires WholeMessagesMatched(initial, internal, providers, entries)
    ensures Sound(entries, internal, providers)
  {
    hide TakenBefore, Count, Ambiguous;
    forall i | 0 <= i < |entries| ensures Describes(entries[i], i, internal[i]) && MappedRight(entries[i], internal[i], providers) {
      assert Describes(initial[i], i, internal[i]);
      MappedIffPaired(initial, internal, providers, entries, i, if entries[i].mapping.Some? then entries[i].mapping.value.provider else 0);
    }
    forall i, j | 0 <= i < j < |entries| && entries[i].mapping.Some? && entries[j].mapping.Some?
      ensures entries[i].mapping.value.provider != entries[j].mapping.value.provider
    {
      var p := entries[i].mapping.value.provider;
      MappedIffPaired(initial, internal, providers, entries, i, p);
      MappedIffPaired(initial, internal, providers, entries, j, p);
      if entries[j].mapping.value.provider == p { PairedBack(initial, internal, providers, i, j, p); }
    }
  }
}
