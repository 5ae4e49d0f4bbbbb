/** Prompt messages with text contents, and spans of several of them overwritten together.
    Both prompt leases, and the removal of author sources, come down to `NoOverlaps` and `ReplaceSpans`. */
module MessageSpans {
  import opened TextEdits
  import opened Ordering

  datatype Option<+T> = None | Some(value: T)

  datatype Message = Message(role: string, name: Option<string>, content: string)

  function Contents(messages: seq<Message>): (r: seq<string>)
    ensures |r| == |messages|
    ensures forall i :: 0 <= i < |r| ==> r[i] == messages[i].content
  {
    seq(|messages|, i requires 0 <= i < |messages| => messages[i].content)
  }

  function WithContents(messages: seq<Message>, contents: seq<string>): (r: seq<Message>)
    requires |contents| == |messages|
    ensures |r| == |messages|
    ensures forall i :: 0 <= i < |r| ==> r[i] == messages[i].(content := contents[i])
  {
    seq(|messages|, i requires 0 <= i < |messages| => messages[i].(content := contents[i]))
  }

  /** Overwrite `expected`, found from `start` up to `end` in one message, with `text`. */
  datatype Span = Span(message: int, start: int, end: int, expected: string, text: string)

  function SpanKey(): Span -> Key {
    (s: Span) => (s.start, s.end)
  }

  ghost predicate InBounds(contents: seq<string>, spans: seq<Span>) {
    forall i :: 0 <= i < |spans| ==>
      0 <= spans[i].message < |contents| && 0 <= spans[i].start < spans[i].end <= |contents[spans[i].message]|
  }

  ghost predicate Apart(a: Span, b: Span) {
    a.message != b.message || a.end <= b.start || b.end <= a.start
  }

  ghost predicate Disjoint(spans: seq<Span>) {
    forall i, j :: 0 <= i < j < |spans| ==> Apart(spans[i], spans[j])
  }

  predicate Holds(content: string, s: Span) {
    0 <= s.start <= s.end <= |content| && content[s.start..s.end] == s.expected
  }

  ghost predicate Matching(contents: seq<string>, spans: seq<Span>)
    requires InBounds(contents, spans)
  {
    forall i :: 0 <= i < |spans| ==> Holds(contents[spans[i].message], spans[i])
  }

  /** The spans of one message, in list order. */
  function AtMessage(spans: seq<Span>, m: int): (r: seq<Span>)
    ensures forall s :: s in r <==> s in spans && s.message == m
  {
    if spans == [] then []
    else
      var init, last := spans[..|spans| - 1], spans[|spans| - 1];
      assert spans == init + [last];
      if last.message == m then AtMessage(init, m) + [last] else AtMessage(init, m)
  }

  /** The spans of one message, left to right. */
  function InOrder(spans: seq<Span>, m: int): seq<Span> {
    Sort(AtMessage(spans, m), SpanKey())
  }

  ghost function ToEdits(spans: seq<Span>): (r: seq<Edit>)
    ensures |r| == |spans|
    ensures forall i :: 0 <= i < |r| ==> r[i] == Edit(spans[i].start, spans[i].end, spans[i].text)
  {
    seq(|spans|, i requires 0 <= i < |spans| => Edit(spans[i].start, spans[i].end, spans[i].text))
  }

  ghost function EditsAt(spans: seq<Span>, m: int): seq<Edit> {
    ToEdits(InOrder(spans, m))
  }

  lemma InOrderElement(spans: seq<Span>, m: int, s: Span)
    ensures s in InOrder(spans, m) <==> s in spans && s.message == m
  {
    SortElement(AtMessage(spans, m), SpanKey(), s);
  }

  lemma {:induction false} AtMessageApart(spans: seq<Span>, m: int)
    requires Disjoint(spans)
    ensures forall i, j :: 0 <= i < j < |AtMessage(spans, m)| ==> Apart(AtMessage(spans, m)[i], AtMessage(spans, m)[j])
  {
    if spans != [] {
      var init, last := spans[..|spans| - 1], spans[|spans| - 1];
      AtMessageApart(init, m);
      forall s | s in AtMessage(init, m) ensures Apart(s, last) {
        var k :| 0 <= k < |init| && init[k] == s;
        assert Apart(spans[k], spans[|spans| - 1]);
      }
    }
  }

  ghost predicate Consecutive(sorted: seq<Span>) {
    forall k, l :: 0 <= k < l < |sorted| ==> sorted[k].end <= sorted[l].start
  }

  ghost predicate NonEmptyWithin(sorted: seq<Span>, n: int) {
    forall k :: 0 <= k < |sorted| ==> 0 <= sorted[k].start < sorted[k].end <= n
  }

  lemma AtMessageInBounds(contents: seq<string>, spans: seq<Span>, m: int)
    requires InBounds(contents, spans) && 0 <= m < |contents|
    ensures NonEmptyWithin(AtMessage(spans, m), |contents[m]|)
  {
    var here := AtMessage(spans, m);
    forall i | 0 <= i < |here| ensures 0 <= here[i].start < here[i].end <= |contents[m]| {
      assert here[i] in here;
    }
  }

  /** Spans of one message, pairwise apart, follow one another once sorted. */
  lemma SortedFollow(here: seq<Span>, m: int, n: int)
    requires NonEmptyWithin(here, n) && forall s :: s in here ==> s.message == m
    requires forall i, j :: 0 <= i < j < |here| ==> Apart(here[i], here[j])
    ensures StrictlySorted(Sort(here, SpanKey()), SpanKey())
    ensures Consecutive(Sort(here, SpanKey()))
  {
    hide Sort;
    assert DistinctKeys(here, SpanKey());
    SortStrict(here, SpanKey());
    var sorted := Sort(here, SpanKey());
    forall i, j | 0 <= i < j < |sorted| ensures sorted[i].end <= sorted[j].start {
      SortElement(here, SpanKey(), sorted[i]);
      SortElement(here, SpanKey(), sorted[j]);
      var p :| 0 <= p < |here| && here[p] == sorted[i];
      var q :| 0 <= q < |here| && here[q] == sorted[j];
      assert Less(SpanKey()(sorted[i]), SpanKey()(sorted[j]));
      assert p < q ==> Apart(here[p], here[q]);
      assert q < p ==> Apart(here[q], here[p]);
    }
  }

  lemma SortedWithin(here: seq<Span>, n: int)
    requires NonEmptyWithin(here, n)
    ensures NonEmptyWithin(Sort(here, SpanKey()), n)
  {
    var sorted := Sort(here, SpanKey());
    forall k | 0 <= k < |sorted| ensures 0 <= sorted[k].start < sorted[k].end <= n {
      SortElement(here, SpanKey(), sorted[k]);
    }
  }

  /** Disjoint spans, sorted, follow one another without overlapping. */
  lemma InOrderFits(contents: seq<string>, spans: seq<Span>, m: int)
    requires InBounds(contents, spans) && Disjoint(spans) && 0 <= m < |contents|
    ensures StrictlySorted(InOrder(spans, m), SpanKey())
    ensures Fits(EditsAt(spans, m), 0, |contents[m]|)
    ensures Consecutive(InOrder(spans, m))
  {
    hide Sort, AtMessage;
    var here := AtMessage(spans, m);
    AtMessageApart(spans, m);
    AtMessageInBounds(contents, spans, m);
    SortedFollow(here, m, |contents[m]|);
    SortedWithin(here, |contents[m]|);
    FitsIntro(EditsAt(spans, m), 0, |contents[m]|);
  }

  /** One message with its spans overwritten. */
  ghost function SubstituteAt(contents: seq<string>, spans: seq<Span>, m: int): string
    requires InBounds(contents, spans) && Disjoint(spans) && 0 <= m < |contents|
  {
    InOrderFits(contents, spans, m);
    Substitute(contents[m], EditsAt(spans, m), 0, |contents[m]|)
  }

  /** All spans overwritten at once. */
  ghost predicate AllSubstituted(contents: seq<string>, spans: seq<Span>, result: seq<string>)
    requires InBounds(contents, spans) && Disjoint(spans)
  {
    |result| == |contents| && forall m :: 0 <= m < |contents| ==> result[m] == SubstituteAt(contents, spans, m)
  }

  lemma {:induction false} Multiplicity<T>(xs: seq<T>, v: T)
    requires forall i, j :: 0 <= i < j < |xs| ==> xs[i] != xs[j]
    ensures multiset(xs)[v] <= 1
  {
    if xs != [] {
      var init := xs[..|xs| - 1];
      assert xs == init + [xs[|xs| - 1]];
      Multiplicity(init, v);
      if v == xs[|xs| - 1] { assert v !in init; assert v !in multiset(init); }
    }
  }

  lemma NoRepeats<T>(xs: seq<T>, ys: seq<T>, i: nat, j: nat)
    requires forall i, j :: 0 <= i < j < |xs| ==> xs[i] != xs[j]
    requires multiset(xs) == multiset(ys) && i < j < |ys|
    ensures ys[i] != ys[j]
  {
    Multiplicity(xs, ys[j]);
    assert ys == ys[..j] + [ys[j]] + ys[j + 1..];
    assert ys[..j][i] == ys[i];
    assert ys[i] in multiset(ys[..j]);
  }

  /** When sorted spans follow one another, the spans they were sorted from are pairwise apart. */
  lemma SortedApart(here: seq<Span>, i: nat, j: nat)
    requires var s := Sort(here, SpanKey());
      && (forall k :: 0 <= k < |s| ==> s[k].start < s[k].end)
      && (forall k, l :: 0 <= k < l < |s| ==> s[k].end <= s[l].start)
    requires i < j < |here|
    ensures Apart(here[i], here[j])
  {
    var s := Sort(here, SpanKey());
    forall k, l | 0 <= k < l < |s| ensures s[k] != s[l] {
      assert s[k].end <= s[l].start;
    }
    NoRepeats(s, here, i, j);
    SortElement(here, SpanKey(), here[i]);
    SortElement(here, SpanKey(), here[j]);
    var p :| 0 <= p < |s| && s[p] == here[i];
    var q :| 0 <= q < |s| && s[q] == here[j];
  }

  lemma {:induction false} PositionAtMessage(spans: seq<Span>, m: int, i: nat, j: nat) returns (p: nat, q: nat)
    requires i < j < |spans| && spans[i].message == m && spans[j].message == m
    ensures p < q < |AtMessage(spans, m)| && AtMessage(spans, m)[p] == spans[i] && AtMessage(spans, m)[q] == spans[j]
  {
    var init := spans[..|spans| - 1];
    if j == |spans| - 1 {
      assert spans[i] == init[i] && spans[i] in AtMessage(init, m);
      p :| 0 <= p < |AtMessage(init, m)| && AtMessage(init, m)[p] == spans[i];
      q := |AtMessage(init, m)|;
    } else {
      p, q := PositionAtMessage(init, m, i, j);
    }
  }

  lemma InOrderAt(contents: seq<string>, spans: seq<Span>, m: int)
    requires InBounds(contents, spans) && 0 <= m < |contents|
    ensures NonEmptyWithin(InOrder(spans, m), |contents[m]|)
    ensures Disjoint(spans) ==> Consecutive(InOrder(spans, m))
  {
    var sorted := InOrder(spans, m);
    forall k | 0 <= k < |sorted| ensures 0 <= sorted[k].start < sorted[k].end <= |contents[m]| {
      InOrderElement(spans, m, sorted[k]);
    }
    if Disjoint(spans) { InOrderFits(contents, spans, m); }
  }

  lemma ConsecutiveApart(spans: seq<Span>, m: int, n: int)
    requires Consecutive(InOrder(spans, m)) && NonEmptyWithin(InOrder(spans, m), n)
    ensures forall i, j :: 0 <= i < j < |spans| && spans[i].message == m ==> Apart(spans[i], spans[j])
  {
    forall i, j | 0 <= i < j < |spans| && spans[i].message == m ensures Apart(spans[i], spans[j]) {
      if spans[j].message == m {
        var p, q := PositionAtMessage(spans, m, i, j);
        SortedApart(AtMessage(spans, m), p, q);
      }
    }
  }

  method NeighboursApart(sorted: seq<Span>, ghost n: int) returns (ok: bool)
    requires NonEmptyWithin(sorted, n)
    ensures ok <==> Consecutive(sorted)
  {
    var index := 1;
    while index < |sorted|
      invariant 1 <= index
      invariant forall k, l :: 0 <= k < l < |sorted| && l < index ==> sorted[k].end <= sorted[l].start
    {
      if sorted[index].start < sorted[index - 1].end { return false; }
      index := index + 1;
    }
    ok := true;
  }

  /** Groups the spans by message, sorts each group and compares neighbours. */
  method NoOverlaps(contents: seq<string>, spans: seq<Span>) returns (ok: bool)
    requires InBounds(contents, spans)
    ensures ok <==> Disjoint(spans)
  {
    for m := 0 to |contents|
      invariant forall i, j :: 0 <= i < j < |spans| && spans[i].message < m ==> Apart(spans[i], spans[j])
    {
      InOrderAt(contents, spans, m);
      var here := NeighboursApart(InOrder(spans, m), |contents[m]|);
      if !here { return false; }
      ConsecutiveApart(spans, m, |contents[m]|);
    }
    ok := true;
  }

  ghost predicate MatchesFrom(original: string, sorted: seq<Span>, k: int)
    requires 0 <= k
  {
    forall i :: k <= i < |sorted| ==> Holds(original, sorted[i])
  }

  lemma ReplaceStep(original: string, edits: seq<Edit>, k: nat, content: string)
    requires Fits(edits, 0, |original|) && 0 < k <= |edits|
    requires Fits(edits[k..], 0, |original|) && content == Substitute(original, edits[k..], 0, |original|)
    ensures 0 <= edits[k - 1].start <= edits[k - 1].end <= |content| && edits[k - 1].end <= |original|
    ensures content[edits[k - 1].start..edits[k - 1].end] == original[edits[k - 1].start..edits[k - 1].end]
    ensures Fits(edits[k - 1..], 0, |original|)
    ensures Splice(content, edits[k - 1]) == Substitute(original, edits[k - 1..], 0, |original|)
  {
    var e := edits[k - 1];
    FitsSuffix(edits, k - 1, |original|);
    assert edits[k - 1..] == [e] + edits[k..];
    SpliceOnTheLeft(original, e, edits[k..]);
    SlicesAgree(content, original, e.start, e.end);
  }

  lemma SlicesAgree(s: string, t: string, a: int, b: int)
    requires 0 <= a <= b <= |s| && b <= |t| && s[..b] == t[..b]
    ensures s[a..b] == t[a..b]
  {
    assert s[a..b] == s[..b][a..] && t[a..b] == t[..b][a..];
  }

  /** Overwrites the spans of one message from the right, checking each against what it should hold. */
  method ReplaceInMessage(original: string, sorted: seq<Span>) returns (r: Option<string>)
    requires NonEmptyWithin(sorted, |original|)
    requires Fits(ToEdits(sorted), 0, |original|)
    ensures r.Some? <==> MatchesFrom(original, sorted, 0)
    ensures r.Some? ==> r.value == Substitute(original, ToEdits(sorted), 0, |original|)
  {
    ghost var edits := ToEdits(sorted);
    var content := original;
    var k := |sorted|;
    FitsSuffix(edits, k, |original|);
    while k > 0
      invariant 0 <= k <= |sorted|
      invariant Fits(edits[k..], 0, |original|) && content == Substitute(original, edits[k..], 0, |original|)
      invariant MatchesFrom(original, sorted, k)
    {
      ReplaceStep(original, edits, k, content);
      var span := sorted[k - 1];
      if !Holds(content, span) { return None; }
      content := Splice(content, Edit(span.start, span.end, span.text));
      k := k - 1;
    }
    assert edits[0..] == edits;
    r := Some(content);
  }

  /** What `Matching` says of message `m`. */
  ghost predicate MatchingAt(contents: seq<string>, spans: seq<Span>, m: int)
    requires InBounds(contents, spans)
  {
    forall i :: 0 <= i < |spans| && spans[i].message == m ==> Holds(contents[spans[i].message], spans[i])
  }

  lemma MatchesInOrder(contents: seq<string>, spans: seq<Span>, m: int)
    requires InBounds(contents, spans) && 0 <= m < |contents|
    ensures MatchesFrom(contents[m], InOrder(spans, m), 0) <==> MatchingAt(contents, spans, m)
  {
    InOrderAt(contents, spans, m);
    var sorted := InOrder(spans, m);
    if MatchingAt(contents, spans, m) {
      forall i | 0 <= i < |sorted| ensures Holds(contents[m], sorted[i]) {
        InOrderElement(spans, m, sorted[i]);
        var j :| 0 <= j < |spans| && spans[j] == sorted[i];
      }
    }
    if MatchesFrom(contents[m], sorted, 0) {
      forall j | 0 <= j < |spans| && spans[j].message == m ensures Holds(contents[m], spans[j]) {
        InOrderElement(spans, m, spans[j]);
        var i :| 0 <= i < |sorted| && sorted[i] == spans[j];
      }
    }
  }

  lemma MatchingEverywhere(contents: seq<string>, spans: seq<Span>)
    requires InBounds(contents, spans)
    ensures Matching(contents, spans) <==> forall m :: 0 <= m < |contents| ==> MatchingAt(contents, spans, m)
  {
    if forall m :: 0 <= m < |contents| ==> MatchingAt(contents, spans, m) {
      forall i | 0 <= i < |spans| ensures Holds(contents[spans[i].message], spans[i]) {
        assert MatchingAt(contents, spans, spans[i].message);
      }
    }
  }

  /** One message of `ReplaceSpans`. */
  method ReplaceAt(contents: seq<string>, spans: seq<Span>, m: nat) returns (r: Option<string>)
    requires InBounds(contents, spans) && Disjoint(spans) && m < |contents|
    ensures r.Some? <==> MatchingAt(contents, spans, m)
    ensures r.Some? ==> r.value == SubstituteAt(contents, spans, m)
  {
    hide InOrder;
    InOrderFits(contents, spans, m);
    InOrderAt(contents, spans, m);
    MatchesInOrder(contents, spans, m);
    r := ReplaceInMessage(contents[m], InOrder(spans, m));
  }

  /** Overwrites the spans of every message. */
  method ReplaceSpans(contents: seq<string>, spans: seq<Span>) returns (r: Option<seq<string>>)
    requires InBounds(contents, spans) && Disjoint(spans)
    ensures r.Some? <==> Matching(contents, spans)
    ensures r.Some? ==> AllSubstituted(contents, spans, r.value)
  {
    hide InOrder, Matching, MatchingAt, SubstituteAt;
    MatchingEverywhere(contents, spans);
    var result := [];
    for m := 0 to |contents|
      invariant |result| == m
      invariant forall k :: 0 <= k < m ==> result[k] == SubstituteAt(contents, spans, k)
      invariant forall k :: 0 <= k < m ==> MatchingAt(contents, spans, k)
    {
      var content := ReplaceAt(contents, spans, m);
      if content.None? { return None; }
      result := result + [content.value];
    }
    r := Some(result);
  }

  lemma FitsSuffix(edits: seq<Edit>, k: nat, to: int)
    requires Fits(edits, 0, to) && k <= |edits|
    ensures Fits(edits[k..], 0, to)
  {
    FitsBounds(edits, 0, to);
    FitsOrdered(edits, 0, to);
    FitsIntro(edits[k..], 0, to);
  }
}
