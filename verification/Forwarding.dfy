/** Predicting what a proxy forwards once authorised author sources are removed (runtime.js, expectedForwardingMessages). */
module Forwarding {
  import opened TextEdits
  import opened TextSearch
  import opened Ordering
  import opened MessageSpans
  import opened PromptEntries
  import opened TraceEntries
  import opened SpanShifts
  import opened Rendering
  import opened TextPatterns

  datatype ForwardingError = GrantInvalid | NotPredictable | SpanInvalid | SpansOverlap

  // ---- The spans to remove ----

  predicate Removes(e: Entry) {
    e.policy == RemoveAbsorbed
  }

  /** The entry's span can be cut out of the messages. */
  predicate Cuttable(e: Entry, messages: seq<Message>) {
    && e.mapping.Some? && 0 <= e.mapping.value.provider < |messages|
    && 0 <= e.mapping.value.start < e.mapping.value.end <= |messages[e.mapping.value.provider].content|
  }

  function CutOf(e: Entry, messages: seq<Message>): Span
    requires Cuttable(e, messages)
  {
    var m := e.mapping.value;
    Span(m.provider, m.start, m.end, messages[m.provider].content[m.start..m.end], "")
  }

  /** The cuts asked for by the first `n` entries, one each; `from` says by which. */
  ghost predicate CutFrom(entries: seq<Entry>, messages: seq<Message>, n: nat, cuts: seq<Span>, from: seq<nat>)
    requires n <= |entries|
  {
    && |from| == |cuts|
    && (forall k :: 0 <= k < |from| ==> AsksFor(entries, messages, from[k], n, cuts[k]))
    && (forall i: nat :: i < n && Removes(entries[i]) ==> i in from)
    && (forall j, k :: 0 <= j < k < |from| ==> from[j] < from[k])
  }

  ghost predicate AsksFor(entries: seq<Entry>, messages: seq<Message>, i: nat, n: nat, cut: Span)
    requires n <= |entries|
  {
    i < n && Removes(entries[i]) && Cuttable(entries[i], messages) && cut == CutOf(entries[i], messages)
  }

  lemma MoreCuts(entries: seq<Entry>, messages: seq<Message>, n: nat, cuts: seq<Span>, from: seq<nat>)
    requires n < |entries| && CutFrom(entries, messages, n, cuts, from) && Removes(entries[n]) && Cuttable(entries[n], messages)
    ensures CutFrom(entries, messages, n + 1, cuts + [CutOf(entries[n], messages)], from + [n])
  {
    hide CutOf, Cuttable;
    var moreCuts, more := cuts + [CutOf(entries[n], messages)], from + [n];
    forall k | 0 <= k < |more| ensures AsksFor(entries, messages, more[k], n + 1, moreCuts[k]) {
      if k < |from| { assert AsksFor(entries, messages, from[k], n, cuts[k]); }
    }
    forall i: nat | i < n + 1 && Removes(entries[i]) ensures i in more {
      if i < n { assert i in from; }
    }
    forall j, k | 0 <= j < k < |more| ensures more[j] < more[k] {
      assert AsksFor(entries, messages, from[j], n, cuts[j]);
    }
  }

  lemma SameCuts(entries: seq<Entry>, messages: seq<Message>, n: nat, cuts: seq<Span>, from: seq<nat>)
    requires n < |entries| && CutFrom(entries, messages, n, cuts, from) && !Removes(entries[n])
    ensures CutFrom(entries, messages, n + 1, cuts, from)
  {
    hide CutOf, Cuttable;
    forall k | 0 <= k < |from| ensures AsksFor(entries, messages, from[k], n + 1, cuts[k]) {
      assert AsksFor(entries, messages, from[k], n, cuts[k]);
    }
  }

  /** Why a removal cannot be predicted: no valid grant, no place in the prompt, or no proper span there. */
  ghost predicate Refused(e: Entry, messages: seq<Message>, valid: Entry -> bool, error: ForwardingError) {
    && e.policy == RemoveAbsorbed
    && match error
       case GrantInvalid => !valid(e)
       case NotPredictable => valid(e) && (e.mapping.Some? ==> !(0 <= e.mapping.value.provider < |messages|))
       case SpanInvalid =>
         && valid(e) && e.mapping.Some? && 0 <= e.mapping.value.provider < |messages|
         && (e.mapping.value.start < 0 || e.mapping.value.end <= e.mapping.value.start
             || e.mapping.value.end > |messages[e.mapping.value.provider].content|)
       case SpansOverlap => false
  }

  /** The first removal that cannot be predicted decides the error. */
  ghost predicate FirstRefused(entries: seq<Entry>, messages: seq<Message>, valid: Entry -> bool, i: int, error: ForwardingError) {
    && 0 <= i < |entries| && Refused(entries[i], messages, valid, error)
    && forall k :: 0 <= k < i && Removes(entries[k]) ==> valid(entries[k]) && Cuttable(entries[k], messages)
  }

  method CollectCuts(entries: seq<Entry>, messages: seq<Message>, valid: Entry -> bool)
    returns (r: Result<seq<Span>, ForwardingError>, ghost from: seq<nat>)
    ensures r.Success? <==> forall i :: 0 <= i < |entries| && Removes(entries[i]) ==> valid(entries[i]) && Cuttable(entries[i], messages)
    ensures r.Success? ==> CutFrom(entries, messages, |entries|, r.value, from)
    ensures r.Failure? ==> r.error != SpansOverlap && exists i :: FirstRefused(entries, messages, valid, i, r.error)
  {
    hide CutFrom;
    var cuts: seq<Span> := [];
    from := [];
    NoCuts(entries, messages);
    for i := 0 to |entries|
      invariant CutFrom(entries, messages, i, cuts, from)
      invariant forall k :: 0 <= k < i && Removes(entries[k]) ==> valid(entries[k]) && Cuttable(entries[k], messages)
    {
      var e := entries[i];
      if Removes(e) {
        if !valid(e) {
          assert FirstRefused(entries, messages, valid, i, GrantInvalid);
          return Failure(GrantInvalid), from;
        }
        if e.mapping.None? || e.mapping.value.provider < 0 || e.mapping.value.provider >= |messages| {
          assert FirstRefused(entries, messages, valid, i, NotPredictable);
          return Failure(NotPredictable), from;
        }
        if !Cuttable(e, messages) {
          assert FirstRefused(entries, messages, valid, i, SpanInvalid);
          return Failure(SpanInvalid), from;
        }
        MoreCuts(entries, messages, i, cuts, from);
        cuts := cuts + [CutOf(e, messages)];
        from := from + [i];
      } else {
        SameCuts(entries, messages, i, cuts, from);
      }
    }
    r := Success(cuts);
  }

  lemma NoCuts(entries: seq<Entry>, messages: seq<Message>)
    ensures CutFrom(entries, messages, 0, [], [])
  {
  }

  lemma CutsFit(entries: seq<Entry>, messages: seq<Message>, cuts: seq<Span>, from: seq<nat>)
    requires CutFrom(entries, messages, |entries|, cuts, from)
    ensures InBounds(Contents(messages), cuts) && forall s :: s in cuts ==> s.text == ""
  {
    forall k | 0 <= k < |cuts|
      ensures 0 <= cuts[k].message < |messages| && 0 <= cuts[k].start < cuts[k].end <= |messages[cuts[k].message].content| && cuts[k].text == ""
    {
      assert AsksFor(entries, messages, from[k], |entries|, cuts[k]);
    }
  }

  // ---- Cutting one message, from the right ----

  function FromTheRight(): Span -> Key {
    (s: Span) => (-s.start, 0)
  }

  /** The cuts made so far, back in reading order. */
  ghost function Reversed(spans: seq<Span>): (r: seq<Span>)
    ensures |r| == |spans| && forall k :: 0 <= k < |r| ==> r[k] == spans[|spans| - 1 - k]
  {
    seq(|spans|, k requires 0 <= k < |spans| => spans[|spans| - 1 - k])
  }

  ghost predicate Leftwards(sorted: seq<Span>, n: nat)
    requires n <= |sorted|
  {
    forall k, l :: 0 <= k < l < n ==> sorted[l].end <= sorted[k].start
  }

  lemma LeftwardsFits(original: string, sorted: seq<Span>, n: nat)
    requires n <= |sorted| && NonEmptyWithin(sorted, |original|) && Leftwards(sorted, n)
    ensures Fits(ToEdits(Reversed(sorted[..n])), 0, |original|)
  {
    FitsIntro(ToEdits(Reversed(sorted[..n])), 0, |original|);
  }

  lemma CutIsSplice(content: string, e: Edit)
    requires 0 <= e.start <= e.end <= |content| && e.text == ""
    ensures Splice(content, e) == content[..e.start] + content[e.end..]
  {
    assert content[..e.start] + "" == content[..e.start];
  }

  lemma ReversedMore(sorted: seq<Span>, n: nat)
    requires n < |sorted|
    ensures ToEdits(Reversed(sorted[..n + 1]))
         == [Edit(sorted[n].start, sorted[n].end, sorted[n].text)] + ToEdits(Reversed(sorted[..n]))
  {
  }

  lemma CutStep(original: string, sorted: seq<Span>, n: nat, content: string)
    requires n < |sorted| && NonEmptyWithin(sorted, |original|) && Leftwards(sorted, n + 1)
    requires Fits(ToEdits(Reversed(sorted[..n])), 0, |original|)
    requires content == Substitute(original, ToEdits(Reversed(sorted[..n])), 0, |original|)
    requires sorted[n].text == ""
    ensures Fits(ToEdits(Reversed(sorted[..n + 1])), 0, |original|)
    ensures sorted[n].end <= |content|
    ensures content[..sorted[n].start] + content[sorted[n].end..] == Substitute(original, ToEdits(Reversed(sorted[..n + 1])), 0, |original|)
  {
    hide Substitute, Fits;
    var e := Edit(sorted[n].start, sorted[n].end, "");
    LeftwardsFits(original, sorted, n + 1);
    ReversedMore(sorted, n);
    SpliceOnTheLeft(original, e, ToEdits(Reversed(sorted[..n])));
    CutIsSplice(content, e);
  }

  /** Cuts sorted from the right; fails exactly when two of them overlap. */
  method CutMessage(original: string, sorted: seq<Span>) returns (r: Option<string>)
    requires NonEmptyWithin(sorted, |original|) && forall k :: 0 <= k < |sorted| ==> sorted[k].text == ""
    ensures r.Some? <==> Leftwards(sorted, |sorted|)
    ensures r.Some? ==> Fits(ToEdits(Reversed(sorted)), 0, |original|)
    ensures r.Some? ==> r.value == Substitute(original, ToEdits(Reversed(sorted)), 0, |original|)
  {
    hide Substitute, Fits;
    var content := original;
    NothingCut(original, sorted);
    for n := 0 to |sorted|
      invariant Leftwards(sorted, n) && Fits(ToEdits(Reversed(sorted[..n])), 0, |original|)
      invariant content == Substitute(original, ToEdits(Reversed(sorted[..n])), 0, |original|)
    {
      var span := sorted[n];
      if n > 0 && span.end > sorted[n - 1].start { return None; }
      assert Leftwards(sorted, n + 1);
      CutStep(original, sorted, n, content);
      content := content[..span.start] + content[span.end..];
    }
    assert sorted[..|sorted|] == sorted;
    r := Some(content);
  }

  lemma NothingCut(original: string, sorted: seq<Span>)
    ensures Fits(ToEdits(Reversed(sorted[..0])), 0, |original|)
    ensures Substitute(original, ToEdits(Reversed(sorted[..0])), 0, |original|) == original
  {
    assert ToEdits(Reversed(sorted[..0])) == [];
  }

  lemma SortedCuts(contents: seq<string>, cuts: seq<Span>, m: int)
    requires InBounds(contents, cuts) && 0 <= m < |contents|
    ensures NonEmptyWithin(Sort(AtMessage(cuts, m), FromTheRight()), |contents[m]|)
    ensures (forall s :: s in cuts ==> s.text == "") ==>
      forall k :: 0 <= k < |Sort(AtMessage(cuts, m), FromTheRight())| ==> Sort(AtMessage(cuts, m), FromTheRight())[k].text == ""
  {
    hide Sort, AtMessage;
    var sorted := Sort(AtMessage(cuts, m), FromTheRight());
    forall k | 0 <= k < |sorted| ensures sorted[k] in cuts && 0 <= sorted[k].start < sorted[k].end <= |contents[m]| {
      SortElement(AtMessage(cuts, m), FromTheRight(), sorted[k]);
    }
  }

  /** Disjoint cuts in reading order are the same list, sorted either way. */
  lemma ReversedInOrder(contents: seq<string>, cuts: seq<Span>, m: int)
    requires InBounds(contents, cuts) && Disjoint(cuts) && 0 <= m < |contents|
    ensures Leftwards(Sort(AtMessage(cuts, m), FromTheRight()), |Sort(AtMessage(cuts, m), FromTheRight())|)
    ensures Reversed(Sort(AtMessage(cuts, m), FromTheRight())) == InOrder(cuts, m)
  {
    hide Sort, AtMessage;
    var here := AtMessage(cuts, m);
    var sorted := Sort(here, FromTheRight());
    AtMessageApart(cuts, m);
    AtMessageInBounds(contents, cuts, m);
    SortedFromTheRight(here, m, |contents[m]|);
    InOrderFits(contents, cuts, m);
    forall s ensures s in Reversed(sorted) <==> s in InOrder(cuts, m) {
      SortElement(here, FromTheRight(), s);
      SortElement(here, SpanKey(), s);
      ReversedElement(sorted, s);
    }
    StrictlySortedUnique(Reversed(sorted), InOrder(cuts, m), SpanKey());
  }

  lemma ReversedElement(spans: seq<Span>, s: Span)
    ensures s in Reversed(spans) <==> s in spans
  {
    if s in spans {
      var k :| 0 <= k < |spans| && spans[k] == s;
      assert Reversed(spans)[|spans| - 1 - k] == s;
    }
  }

  lemma SortedFromTheRight(here: seq<Span>, m: int, n: int)
    requires NonEmptyWithin(here, n) && forall s :: s in here ==> s.message == m
    requires forall i, j :: 0 <= i < j < |here| ==> Apart(here[i], here[j])
    ensures var sorted := Sort(here, FromTheRight());
      Leftwards(sorted, |sorted|) && StrictlySorted(Reversed(sorted), SpanKey())
  {
    hide Sort;
    assert DistinctKeys(here, FromTheRight());
    SortStrict(here, FromTheRight());
    var sorted := Sort(here, FromTheRight());
    forall i, j | 0 <= i < j < |sorted| ensures sorted[j].end <= sorted[i].start && sorted[j].start < sorted[i].start {
      SortElement(here, FromTheRight(), sorted[i]);
      SortElement(here, FromTheRight(), sorted[j]);
      var p :| 0 <= p < |here| && here[p] == sorted[i];
      var q :| 0 <= q < |here| && here[q] == sorted[j];
      assert Less(FromTheRight()(sorted[i]), FromTheRight()(sorted[j]));
      assert p < q ==> Apart(here[p], here[q]);
      assert q < p ==> Apart(here[q], here[p]);
    }
  }

  lemma LeftwardsApart(here: seq<Span>, n: int, i: nat, j: nat)
    requires var s := Sort(here, FromTheRight()); NonEmptyWithin(s, n) && Leftwards(s, |s|)
    requires i < j < |here|
    ensures Apart(here[i], here[j])
  {
    hide Sort;
    var s := Sort(here, FromTheRight());
    forall k, l | 0 <= k < l < |s| ensures s[k] != s[l] {
      assert s[l].end <= s[k].start;
    }
    NoRepeats(s, here, i, j);
    SortElement(here, FromTheRight(), here[i]);
    SortElement(here, FromTheRight(), here[j]);
    var p :| 0 <= p < |s| && s[p] == here[i];
    var q :| 0 <= q < |s| && s[q] == here[j];
  }

  /** Message by message, cuts follow one another leftwards exactly when they are disjoint. */
  lemma AllLeftwards(contents: seq<string>, cuts: seq<Span>)
    requires InBounds(contents, cuts)
    requires forall m :: 0 <= m < |contents| ==>
      Leftwards(Sort(AtMessage(cuts, m), FromTheRight()), |Sort(AtMessage(cuts, m), FromTheRight())|)
    ensures Disjoint(cuts)
  {
    hide Sort, AtMessage;
    forall i, j | 0 <= i < j < |cuts| ensures Apart(cuts[i], cuts[j]) {
      if cuts[i].message == cuts[j].message {
        var m := cuts[i].message;
        var p, q := PositionAtMessage(cuts, m, i, j);
        SortedCuts(contents, cuts, m);
        LeftwardsApart(AtMessage(cuts, m), |contents[m]|, p, q);
      }
    }
  }

  // ---- The forwarded messages ----

  /** Message `m` loses a span and nothing but white space is left of it. */
  ghost predicate Dropped(cuts: seq<Span>, erased: seq<string>, m: int)
    requires 0 <= m < |erased|
  {
    AtMessage(cuts, m) != [] && Blank(erased[m])
  }

  /** The messages that are kept, in order, with their new contents. */
  ghost function Kept(messages: seq<Message>, cuts: seq<Span>, erased: seq<string>, n: nat): seq<Message>
    requires n <= |messages| == |erased|
  {
    if n == 0 then []
    else Kept(messages, cuts, erased, n - 1)
         + (if Dropped(cuts, erased, n - 1) then [] else [messages[n - 1].(content := erased[n - 1])])
  }

  /** One message, without its spans. */
  method CutAt(contents: seq<string>, cuts: seq<Span>, m: nat) returns (r: Option<string>, any: bool)
    requires InBounds(contents, cuts) && m < |contents| && forall s :: s in cuts ==> s.text == ""
    ensures any <==> AtMessage(cuts, m) != []
    ensures r.Some? <==> Leftwards(Sort(AtMessage(cuts, m), FromTheRight()), |Sort(AtMessage(cuts, m), FromTheRight())|)
    ensures Disjoint(cuts) ==> r.Some? && r.value == SubstituteAt(contents, cuts, m)
  {
    hide Sort, AtMessage, Substitute;
    var sorted := Sort(AtMessage(cuts, m), FromTheRight());
    SortedCuts(contents, cuts, m);
    if Disjoint(cuts) {
      ReversedInOrder(contents, cuts, m);
      InOrderFits(contents, cuts, m);
    }
    NoSpansSorted(cuts, m);
    r := CutMessage(contents[m], sorted);
    any := sorted != [];
  }

  method CutMessages(messages: seq<Message>, cuts: seq<Span>) returns (r: Option<seq<Message>>, ghost erased: seq<string>)
    requires InBounds(Contents(messages), cuts) && forall s :: s in cuts ==> s.text == ""
    ensures r.Some? <==> Disjoint(cuts)
    ensures r.Some? ==>
      AllSubstituted(Contents(messages), cuts, erased) && r.value == Kept(messages, cuts, erased, |messages|)
  {
    hide Sort, AtMessage, SubstituteAt, Leftwards, KeptSoFar, Kept;
    var contents, retained := Contents(messages), [];
    erased := [];
    KeptNone(messages, cuts);
    for m := 0 to |messages|
      invariant |erased| == m
      invariant Disjoint(cuts) ==> forall k :: 0 <= k < m ==> erased[k] == SubstituteAt(contents, cuts, k)
      invariant retained == KeptSoFar(messages, cuts, erased)
      invariant forall k :: 0 <= k < m ==>
        Leftwards(Sort(AtMessage(cuts, k), FromTheRight()), |Sort(AtMessage(cuts, k), FromTheRight())|)
    {
      var content, any := CutAt(contents, cuts, m);
      if content.None? { return None, erased; }
      KeptMore(messages, cuts, erased, content.value);
      erased := erased + [content.value];
      if !(any && Blank(content.value)) {
        retained := retained + [messages[m].(content := content.value)];
      }
    }
    AllLeftwards(contents, cuts);
    KeptAll(messages, cuts, erased);
    r := Some(retained);
  }

  lemma KeptNone(messages: seq<Message>, cuts: seq<Span>)
    ensures KeptSoFar(messages, cuts, []) == []
  {
  }

  lemma NoSpansSorted(cuts: seq<Span>, m: int)
    ensures Sort(AtMessage(cuts, m), FromTheRight()) == [] <==> AtMessage(cuts, m) == []
  {
    hide Sort;
    assert |multiset(Sort(AtMessage(cuts, m), FromTheRight()))| == |multiset(AtMessage(cuts, m))|;
  }

  ghost function KeptSoFar(messages: seq<Message>, cuts: seq<Span>, erased: seq<string>): seq<Message>
    requires |erased| <= |messages|
  {
    if erased == [] then []
    else
      var n := |erased| - 1;
      KeptSoFar(messages, cuts, erased[..n])
      + (if AtMessage(cuts, n) != [] && Blank(erased[n]) then [] else [messages[n].(content := erased[n])])
  }

  lemma KeptMore(messages: seq<Message>, cuts: seq<Span>, erased: seq<string>, content: string)
    requires |erased| < |messages|
    ensures KeptSoFar(messages, cuts, erased + [content])
         == KeptSoFar(messages, cuts, erased)
            + (if AtMessage(cuts, |erased|) != [] && Blank(content) then [] else [messages[|erased|].(content := content)])
  {
    hide AtMessage;
    assert (erased + [content])[..|erased|] == erased;
  }

  lemma {:induction false} KeptPrefix(messages: seq<Message>, cuts: seq<Span>, erased: seq<string>, n: nat)
    requires n <= |erased| == |messages|
    ensures Kept(messages, cuts, erased, n) == KeptSoFar(messages, cuts, erased[..n])
  {
    hide AtMessage;
    if n > 0 {
      KeptPrefix(messages, cuts, erased, n - 1);
      assert erased[..n][..n - 1] == erased[..n - 1];
    }
  }

  lemma KeptAll(messages: seq<Message>, cuts: seq<Span>, erased: seq<string>)
    requires |erased| == |messages|
    ensures Kept(messages, cuts, erased, |messages|) == KeptSoFar(messages, cuts, erased)
  {
    KeptPrefix(messages, cuts, erased, |messages|);
    assert erased[..|messages|] == erased;
  }

  // ---- On a trace ----

  /** The spans a sound trace asks to remove never overlap. */
  lemma TraceCutsDisjoint(entries: seq<Entry>, internal: seq<Message>, messages: seq<Message>, cuts: seq<Span>, from: seq<nat>)
    requires Sound(entries, internal, messages) && CutFrom(entries, messages, |entries|, cuts, from)
    ensures Disjoint(cuts)
  {
    forall j, k | 0 <= j < k < |cuts| ensures Apart(cuts[j], cuts[k]) {
      assert AsksFor(entries, messages, from[j], |entries|, cuts[j]) && AsksFor(entries, messages, from[k], |entries|, cuts[k]);
      assert MapsApart(entries[from[j]].mapping.value, entries[from[k]].mapping.value);
    }
  }

  // ---- What is forwarded, position by position ----

  /** The entry asks for its span of message `m` to be removed, and the span holds position `p`. */
  ghost predicate TakesOut(e: Entry, m: int, p: int) {
    && e.policy == RemoveAbsorbed && e.mapping.Some? && e.mapping.value.provider == m
    && e.mapping.value.start <= p < e.mapping.value.end
  }

  /** The positions of message `m` that one of the first `n` entries takes out. */
  ghost function TakenOut(entries: seq<Entry>, m: int, n: int): int -> bool {
    p => exists i :: 0 <= i < n && i < |entries| && TakesOut(entries[i], m, p)
  }

  /** The message without the characters that removed sources are mapped to. */
  ghost function LeftOf(entries: seq<Entry>, messages: seq<Message>, m: int): string
    requires 0 <= m < |messages|
  {
    Remaining(messages[m].content, TakenOut(entries, m, |entries|), 0, |messages[m].content|)
  }

  ghost predicate TakesFrom(e: Entry, m: int) {
    e.policy == RemoveAbsorbed && e.mapping.Some? && e.mapping.value.provider == m
  }

  /** The message loses a source, and nothing but white space is left of it. */
  ghost predicate Withheld(entries: seq<Entry>, messages: seq<Message>, m: int)
    requires 0 <= m < |messages|
  {
    (exists i :: 0 <= i < |entries| && TakesFrom(entries[i], m)) && Blank(LeftOf(entries, messages, m))
  }

  /** What is left of the first `n` messages, in order, without those that are withheld. */
  ghost function Forwarded(entries: seq<Entry>, messages: seq<Message>, n: nat): seq<Message>
    requires n <= |messages|
  {
    if n == 0 then []
    else Forwarded(entries, messages, n - 1)
         + (if Withheld(entries, messages, n - 1) then [] else [messages[n - 1].(content := LeftOf(entries, messages, n - 1))])
  }

  /** The cuts take out exactly the positions that removed sources are mapped to. */
  lemma CutsAreTakenOut(entries: seq<Entry>, messages: seq<Message>, cuts: seq<Span>, from: seq<nat>, m: int, p: int)
    requires CutFrom(entries, messages, |entries|, cuts, from)
    ensures OverwrittenAt(cuts, m, p) <==> TakenOut(entries, m, |entries|)(p)
    ensures (exists s :: s in cuts && s.message == m) <==> exists i :: 0 <= i < |entries| && TakesFrom(entries[i], m)
  {
    forall i | 0 <= i < |entries| && TakesFrom(entries[i], m)
      ensures exists k :: 0 <= k < |from| && from[k] == i && AsksFor(entries, messages, i, |entries|, cuts[k])
    {
      assert Removes(entries[i]);
      var k :| 0 <= k < |from| && from[k] == i;
      assert AsksFor(entries, messages, from[k], |entries|, cuts[k]);
    }
    if TakenOut(entries, m, |entries|)(p) {
      var i :| 0 <= i < |entries| && TakesOut(entries[i], m, p);
      assert TakesFrom(entries[i], m);
      var k :| 0 <= k < |from| && from[k] == i && AsksFor(entries, messages, i, |entries|, cuts[k]);
      assert cuts[k].message == m && cuts[k].start <= p < cuts[k].end;
    }
    if OverwrittenAt(cuts, m, p) {
      var k :| 0 <= k < |cuts| && cuts[k].message == m && cuts[k].start <= p < cuts[k].end;
      assert AsksFor(entries, messages, from[k], |entries|, cuts[k]);
      assert TakesOut(entries[from[k]], m, p);
    }
    if i :| 0 <= i < |entries| && TakesFrom(entries[i], m) {
      var k :| 0 <= k < |from| && from[k] == i && AsksFor(entries, messages, i, |entries|, cuts[k]);
      assert cuts[k] in cuts;
    }
    if s :| s in cuts && s.message == m {
      var k :| 0 <= k < |cuts| && cuts[k] == s;
      assert AsksFor(entries, messages, from[k], |entries|, cuts[k]);
      assert TakesFrom(entries[from[k]], m);
    }
  }

  /** Erasing the cuts leaves exactly the characters outside the removed sources. */
  lemma ErasedIsLeft(entries: seq<Entry>, messages: seq<Message>, cuts: seq<Span>, from: seq<nat>, erased: seq<string>, m: int)
    requires CutFrom(entries, messages, |entries|, cuts, from)
    requires InBounds(Contents(messages), cuts) && Disjoint(cuts) && AllSubstituted(Contents(messages), cuts, erased)
    requires 0 <= m < |messages|
    ensures erased[m] == LeftOf(entries, messages, m)
  {
    var content, gone, put: int -> string := messages[m].content, TakenOut(entries, m, |entries|), p => "";
    CutsFit(entries, messages, cuts, from);
    forall p ensures OverwrittenAt(cuts, m, p) <==> gone(p) {
      CutsAreTakenOut(entries, messages, cuts, from, m, p);
    }
    assert SpansDescribe(cuts, m, gone, put, |content|) by {
      forall k | 0 <= k < |cuts| ensures cuts[k].text == "" { assert cuts[k] in cuts; }
    }
    SubstitutedRenders(Contents(messages), cuts, m, gone, put);
    NothingPut(content, gone, put, 0, |content|);
  }

  lemma {:induction false} KeptIsForwarded(
      entries: seq<Entry>, messages: seq<Message>, cuts: seq<Span>, from: seq<nat>, erased: seq<string>, n: nat)
    requires CutFrom(entries, messages, |entries|, cuts, from)
    requires InBounds(Contents(messages), cuts) && Disjoint(cuts) && AllSubstituted(Contents(messages), cuts, erased)
    requires n <= |messages|
    ensures Kept(messages, cuts, erased, n) == Forwarded(entries, messages, n)
  {
    hide CutFrom, LeftOf, AllSubstituted, InBounds, Disjoint, Blank, TakesFrom;
    if n > 0 {
      KeptIsForwarded(entries, messages, cuts, from, erased, n - 1);
      ErasedIsLeft(entries, messages, cuts, from, erased, n - 1);
      CutsAreTakenOut(entries, messages, cuts, from, n - 1, 0);
      AnyAtMessage(cuts, n - 1);
    }
  }

  lemma AnyAtMessage(cuts: seq<Span>, m: int)
    ensures AtMessage(cuts, m) != [] <==> exists s :: s in cuts && s.message == m
  {
    hide AtMessage;
    if AtMessage(cuts, m) != [] { assert AtMessage(cuts, m)[0] in AtMessage(cuts, m); }
  }

  /** How many characters the first `n` entries take out of message `m`. */
  ghost function Loss(entries: seq<Entry>, m: int, n: nat): int
    requires n <= |entries|
  {
    if n == 0 then 0
    else Loss(entries, m, n - 1)
         + (if TakesFrom(entries[n - 1], m) then entries[n - 1].mapping.value.end - entries[n - 1].mapping.value.start else 0)
  }

  lemma TakenOutOnce(entries: seq<Entry>, internal: seq<Message>, messages: seq<Message>, m: int, n: nat, p: int)
    requires Sound(entries, internal, messages) && 0 < n <= |entries|
    ensures TakesOut(entries[n - 1], m, p) ==> !TakenOut(entries, m, n - 1)(p)
  {
    var e := entries[n - 1];
    forall i | 0 <= i < n - 1 && TakesOut(entries[i], m, p) ensures !TakesOut(e, m, p) {
      if e.mapping.Some? { assert MapsApart(entries[i].mapping.value, e.mapping.value); }
    }
  }

  /** On a sound trace every removed source shortens its message by exactly its length. */
  lemma {:induction false} LeftLength(entries: seq<Entry>, internal: seq<Message>, messages: seq<Message>, m: int, n: nat)
    requires Sound(entries, internal, messages) && 0 <= m < |messages| && n <= |entries|
    ensures |Remaining(messages[m].content, TakenOut(entries, m, n), 0, |messages[m].content|)|
         == |messages[m].content| - Loss(entries, m, n)
  {
    var s := messages[m].content;
    if n == 0 {
      RemainingUntouched(s, TakenOut(entries, m, 0), 0, |s|);
    } else {
      LeftLength(entries, internal, messages, m, n - 1);
      var e, gone, more := entries[n - 1], TakenOut(entries, m, n - 1), TakenOut(entries, m, n);
      forall p ensures more(p) <==> gone(p) || TakesOut(e, m, p) {
        if more(p) {
          var i :| 0 <= i < n && TakesOut(entries[i], m, p);
          assert i < n - 1 ==> gone(p);
        }
      }
      if TakesFrom(e, m) {
        assert MappedRight(e, internal[n - 1], messages);
        forall p | e.mapping.value.start <= p < e.mapping.value.end ensures !gone(p) && more(p) {
          assert TakesOut(e, m, p);
          TakenOutOnce(entries, internal, messages, m, n, p);
        }
        OneStretchLess(s, gone, more, e.mapping.value.start, e.mapping.value.end);
      } else {
        RemainingSame(s, gone, more, 0, |s|);
      }
    }
  }

  /** Any stretch that no removed source reaches into is found verbatim in what is left, and stretches keep their order. */
  lemma StretchSurvives(entries: seq<Entry>, messages: seq<Message>, m: int, a: nat, b: nat, c: nat)
    requires 0 <= m < |messages| && a <= b <= c <= |messages[m].content|
    requires forall i :: 0 <= i < |entries| && TakesFrom(entries[i], m) ==> entries[i].mapping.value.end <= a || b <= entries[i].mapping.value.start
    ensures var s, gone := messages[m].content, TakenOut(entries, m, |entries|);
      && OccursAt(LeftOf(entries, messages, m), s[a..b], |Remaining(s, gone, 0, a)|)
      && |Remaining(s, gone, 0, a)| + (b - a) <= |Remaining(s, gone, 0, c)|
  {
    var s, gone := messages[m].content, TakenOut(entries, m, |entries|);
    forall p | a <= p < b ensures !gone(p) {
      forall i | 0 <= i < |entries| ensures !TakesOut(entries[i], m, p) {
        assert TakesOut(entries[i], m, p) ==> TakesFrom(entries[i], m);
      }
    }
    StretchRemains(s, gone, a, b);
    StretchesOrdered(s, gone, a, b, c);
  }

  /** A message is forwarded, with what is left of it, if and only if it is not withheld. */
  lemma {:induction false} ForwardedAt(entries: seq<Entry>, messages: seq<Message>, m: nat, n: nat)
    requires m < n <= |messages|
    ensures var r := |Forwarded(entries, messages, m)|;
      if Withheld(entries, messages, m) then Forwarded(entries, messages, m + 1) == Forwarded(entries, messages, m)
      else r < |Forwarded(entries, messages, n)|
           && Forwarded(entries, messages, n)[r] == messages[m].(content := LeftOf(entries, messages, m))
    decreases n
  {
    hide Withheld, LeftOf;
    if m < n - 1 { ForwardedAt(entries, messages, m, n - 1); }
  }

  /** In a sound trace a removal can be cut out exactly when it is mapped to some text. */
  lemma SoundCuttable(entries: seq<Entry>, internal: seq<Message>, messages: seq<Message>)
    requires Sound(entries, internal, messages)
    ensures forall i :: 0 <= i < |entries| ==>
      (Cuttable(entries[i], messages) <==> entries[i].mapping.Some? && entries[i].mapping.value.start < entries[i].mapping.value.end)
  {
    forall i | 0 <= i < |entries|
      ensures Cuttable(entries[i], messages) <==> entries[i].mapping.Some? && entries[i].mapping.value.start < entries[i].mapping.value.end
    {
      assert MappedRight(entries[i], internal[i], messages);
    }
  }

  method ExpectedMessages(entries: seq<Entry>, messages: seq<Message>, valid: Entry -> bool, ghost internal: seq<Message>)
    returns (r: Result<seq<Message>, ForwardingError>, ghost cuts: seq<Span>, ghost from: seq<nat>, ghost erased: seq<string>)
    ensures r.Success? ==>
      && CutFrom(entries, messages, |entries|, cuts, from) && InBounds(Contents(messages), cuts) && Disjoint(cuts)
      && AllSubstituted(Contents(messages), cuts, erased) && r.value == Kept(messages, cuts, erased, |messages|)
    ensures r.Success? || r == Failure(SpansOverlap) <==>
      forall i :: 0 <= i < |entries| && Removes(entries[i]) ==> valid(entries[i]) && Cuttable(entries[i], messages)
    ensures r == Failure(SpansOverlap) ==>
      CutFrom(entries, messages, |entries|, cuts, from) && InBounds(Contents(messages), cuts) && !Disjoint(cuts)
    ensures r.Failure? && r.error != SpansOverlap ==> exists i :: FirstRefused(entries, messages, valid, i, r.error)
    ensures Sound(entries, internal, messages) ==> r != Failure(SpansOverlap)
    ensures r.Success? ==> r.value == Forwarded(entries, messages, |messages|)
    ensures Sound(entries, internal, messages) ==>
      (r.Success? <==>
        forall i :: 0 <= i < |entries| && entries[i].policy == RemoveAbsorbed ==>
          valid(entries[i]) && entries[i].mapping.Some? && entries[i].mapping.value.start < entries[i].mapping.value.end)
  {
    if Sound(entries, internal, messages) { SoundCuttable(entries, internal, messages); }
    hide CutFrom, Kept, AllSubstituted, Sound, Forwarded;
    cuts, from, erased := [], [], [];
    var collected;
    collected, from := CollectCuts(entries, messages, valid);
    if collected.Failure? { return Failure(collected.error), cuts, from, erased; }
    cuts := collected.value;
    CutsFit(entries, messages, cuts, from);
    if Sound(entries, internal, messages) { TraceCutsDisjoint(entries, internal, messages, cuts, from); }
    var retained;
    retained, erased := CutMessages(messages, collected.value);
    if retained.None? { return Failure(SpansOverlap), cuts, from, erased; }
    KeptIsForwarded(entries, messages, cuts, from, erased, |messages|);
    r := Success(retained.value);
  }

  /** A retained segment is found verbatim in what is left of its message, moved by the cuts before it. */
  lemma SegmentSurvives(
      entries: seq<Entry>, internal: seq<Message>, messages: seq<Message>, cuts: seq<Span>, from: seq<nat>, erased: seq<string>, i: nat)
    requires Sound(entries, internal, messages) && CutFrom(entries, messages, |entries|, cuts, from)
    requires InBounds(Contents(messages), cuts) && Disjoint(cuts) && AllSubstituted(Contents(messages), cuts, erased)
    requires i < |entries| && !Removes(entries[i]) && entries[i].mapping.Some?
    ensures Within(entries[i].mapping.value, messages)
    ensures var m := entries[i].mapping.value;
      OccursAt(erased[m.provider], SliceAt(m, messages), Moved(cuts, m.provider, m.start))
  {
    assert MappedRight(entries[i], internal[i], messages);
    var m := entries[i].mapping.value;
    forall k | 0 <= k < |cuts| && cuts[k].message == m.provider ensures cuts[k].end <= m.start || m.end <= cuts[k].start {
      assert AsksFor(entries, messages, from[k], |entries|, cuts[k]);
      assert from[k] != i;
      assert from[k] < i ==> MapsApart(entries[from[k]].mapping.value, m);
      assert i < from[k] ==> MapsApart(m, entries[from[k]].mapping.value);
    }
    SegmentMoved(Contents(messages), cuts, m.provider, m.start, m.end);
  }

  lemma SegmentMoved(contents: seq<string>, cuts: seq<Span>, m: int, a: int, b: int)
    requires InBounds(contents, cuts) && Disjoint(cuts) && 0 <= m < |contents| && 0 <= a <= b <= |contents[m]|
    requires forall k :: 0 <= k < |cuts| && cuts[k].message == m ==> cuts[k].end <= a || b <= cuts[k].start
    ensures OccursAt(SubstituteAt(contents, cuts, m), contents[m][a..b], Moved(cuts, m, a))
  {
    SliceMoved(contents, cuts, m, a, b);
  }

  /** A message is in the forwarded list unless it is dropped; the list keeps their order. */
  lemma {:induction false} KeptAt(messages: seq<Message>, cuts: seq<Span>, erased: seq<string>, m: nat, n: nat)
    requires m < n <= |messages| == |erased| && !Dropped(cuts, erased, m)
    ensures var r := |Kept(messages, cuts, erased, m)|;
      r < |Kept(messages, cuts, erased, n)| && Kept(messages, cuts, erased, n)[r] == messages[m].(content := erased[m])
    decreases n
  {
    hide AtMessage;
    if m < n - 1 { KeptAt(messages, cuts, erased, m, n - 1); }
  }

  lemma {:induction false} KeptOnly(messages: seq<Message>, cuts: seq<Span>, erased: seq<string>, n: nat, r: nat) returns (m: nat)
    requires n <= |messages| == |erased| && r < |Kept(messages, cuts, erased, n)|
    ensures m < n && !Dropped(cuts, erased, m) && r == |Kept(messages, cuts, erased, m)|
    ensures Kept(messages, cuts, erased, n)[r] == messages[m].(content := erased[m])
  {
    hide AtMessage;
    if r < |Kept(messages, cuts, erased, n - 1)| {
      m := KeptOnly(messages, cuts, erased, n - 1, r);
    } else {
      m := n - 1;
    }
  }

  lemma BlankParts(s: string, p: string, i: int)
    requires Blank(s) && OccursAt(s, p, i)
    ensures Blank(p)
  {
    var t := s[i..i + |p|];
    assert forall k :: 0 <= k < |p| ==> p[k] == t[k] == s[i + k];
  }

  /** A retained segment that is not all white space is forwarded; its message can only be dropped if it
      lost a span and everything else in it is white space. */
  lemma SegmentForwarded(
      entries: seq<Entry>, internal: seq<Message>, messages: seq<Message>, cuts: seq<Span>, from: seq<nat>, erased: seq<string>, i: nat)
    requires Sound(entries, internal, messages) && CutFrom(entries, messages, |entries|, cuts, from)
    requires InBounds(Contents(messages), cuts) && Disjoint(cuts) && AllSubstituted(Contents(messages), cuts, erased)
    requires i < |entries| && !Removes(entries[i]) && entries[i].mapping.Some?
    ensures var p := entries[i].mapping.value.provider; var text := SliceAt(entries[i].mapping.value, messages);
      && (!Blank(text) ==> !Dropped(cuts, erased, p))
      && (!Dropped(cuts, erased, p) ==>
            var r := |Kept(messages, cuts, erased, p)|;
            && r < |Kept(messages, cuts, erased, |messages|)|
            && OccursAt(Kept(messages, cuts, erased, |messages|)[r].content, text, Moved(cuts, p, entries[i].mapping.value.start)))
  {
    hide Kept, AtMessage, Shift;
    SegmentSurvives(entries, internal, messages, cuts, from, erased, i);
    var m := entries[i].mapping.value;
    if Dropped(cuts, erased, m.provider) {
      BlankParts(erased[m.provider], SliceAt(m, messages), Moved(cuts, m.provider, m.start));
    } else {
      KeptAt(messages, cuts, erased, m.provider, |messages|);
    }
  }

  // ---- A retained segment of white space ----

  const LostMessages := [Message("user", None, "\nx")]
  const LostInternal := [Message("user", None, "\n"), Message("user", None, "x")]

  ghost function LostEntry(order: nat): Entry
    requires order < 2
  {
    var d := Digest(LostInternal[order]);
    Entry(order, Named("scenario"), "user", None, d, "raw_scenario", if order == 0 then Retain else RemoveAbsorbed,
          if order == 0 then None else Some(Grant("g", d)), None, Some("scenario"), Some(Mapping(0, order, order + 1, ContentSpan)), false)
  }

  /** In "\nx" the line break is a retained source and "x" is removed: nothing of the message is forwarded. */
  lemma WhiteSpaceLost(erased: seq<string>)
    requires InBounds(Contents(LostMessages), [CutOf(LostEntry(1), LostMessages)])
    requires Disjoint([CutOf(LostEntry(1), LostMessages)])
    requires AllSubstituted(Contents(LostMessages), [CutOf(LostEntry(1), LostMessages)], erased)
    ensures Sound([LostEntry(0), LostEntry(1)], LostInternal, LostMessages) && !Removes(LostEntry(0))
    ensures erased == ["\n"] && Dropped([CutOf(LostEntry(1), LostMessages)], erased, 0)
    ensures Kept(LostMessages, [CutOf(LostEntry(1), LostMessages)], erased, 1) == []
  {
    hide Sort;
    var contents, cut := Contents(LostMessages), CutOf(LostEntry(1), LostMessages);
    var cuts := [cut];
    assert contents == ["\nx"];
    assert cut in AtMessage(cuts, 0);
    OneCut(contents, cut, erased[0]);
    assert Kept(LostMessages, cuts, erased, 0) == [];
    assert "\nx"[0..1] == "\n" && "\nx"[1..2] == "x";
  }

  lemma OneCut(contents: seq<string>, cut: Span, erased: string)
    requires contents == ["\nx"] && cut.message == 0 && cut.start == 1 && cut.end == 2 && cut.text == ""
    requires InBounds(contents, [cut]) && Disjoint([cut]) && erased == SubstituteAt(contents, [cut], 0)
    ensures erased == "\n"
  {
    hide Sort, AtMessage;
    var sorted := InOrder([cut], 0);
    InOrderFits(contents, [cut], 0);
    forall s ensures s in sorted <==> s in [cut] { InOrderElement([cut], 0, s); }
    StrictlySortedUnique(sorted, [cut], SpanKey());
    var edits := ToEdits(sorted);
    assert edits == [Edit(1, 2, "")] && edits[1..] == [];
    assert Substitute("\nx", [], 2, 2) == "";
  }
}
