/** Edited texts read position by position: what each position of the original contributes to the result. */
module Rendering {
  import opened TextEdits
  import opened Ordering
  import opened MessageSpans

  /** The characters from `from` up to `limit`: before each position the text put there, then its character unless it is gone. */
  ghost function Render(s: string, gone: int -> bool, put: int -> string, from: int, limit: int): string
    requires 0 <= from <= limit <= |s|
    decreases limit - from
  {
    if from == limit then ""
    else put(from) + (if gone(from) then "" else [s[from]]) + Render(s, gone, put, from + 1, limit)
  }

  /** The characters from `from` up to `limit` that are not gone. */
  ghost function Remaining(s: string, gone: int -> bool, from: int, limit: int): string
    requires 0 <= from <= limit <= |s|
    decreases limit - from
  {
    if from == limit then ""
    else (if gone(from) then "" else [s[from]]) + Remaining(s, gone, from + 1, limit)
  }

  lemma {:induction false} NothingPut(s: string, gone: int -> bool, put: int -> string, from: nat, limit: nat)
    requires from <= limit <= |s| && forall p :: from <= p < limit ==> put(p) == ""
    ensures Render(s, gone, put, from, limit) == Remaining(s, gone, from, limit)
    decreases limit - from
  {
    if from < limit { NothingPut(s, gone, put, from + 1, limit); }
  }

  lemma {:induction false} RenderConcat(s: string, gone: int -> bool, put: int -> string, from: nat, mid: nat, limit: nat)
    requires from <= mid <= limit <= |s|
    ensures Render(s, gone, put, from, limit) == Render(s, gone, put, from, mid) + Render(s, gone, put, mid, limit)
    decreases mid - from
  {
    if from < mid {
      RenderConcat(s, gone, put, from + 1, mid, limit);
      Assoc(put(from) + (if gone(from) then "" else [s[from]]), Render(s, gone, put, from + 1, mid), Render(s, gone, put, mid, limit));
    }
  }

  lemma {:induction false} RenderUntouched(s: string, gone: int -> bool, put: int -> string, from: nat, limit: nat)
    requires from <= limit <= |s| && forall p :: from <= p < limit ==> put(p) == "" && !gone(p)
    ensures Render(s, gone, put, from, limit) == s[from..limit]
    decreases limit - from
  {
    if from < limit { RenderUntouched(s, gone, put, from + 1, limit); }
  }

  lemma {:induction false} RenderGone(s: string, gone: int -> bool, put: int -> string, from: nat, limit: nat)
    requires from <= limit <= |s| && forall p :: from <= p < limit ==> put(p) == "" && gone(p)
    ensures Render(s, gone, put, from, limit) == ""
    decreases limit - from
  {
    if from < limit { RenderGone(s, gone, put, from + 1, limit); }
  }

  /** Position `p` is overwritten by one of the edits. */
  ghost predicate Overwritten(edits: seq<Edit>, p: int) {
    exists k :: 0 <= k < |edits| && edits[k].start <= p < edits[k].end
  }

  /** The edits say which positions are gone and what is put before each. */
  ghost predicate Describe(edits: seq<Edit>, gone: int -> bool, put: int -> string, from: int, limit: int) {
    && (forall p :: from <= p < limit ==> (gone(p) <==> Overwritten(edits, p)))
    && (forall k :: 0 <= k < |edits| ==> put(edits[k].start) == edits[k].text)
    && (forall p :: from <= p < limit && (forall k :: 0 <= k < |edits| ==> edits[k].start != p) ==> put(p) == "")
  }

  /** Substituting non-empty spans gives each position of the original its due. */
  lemma {:induction false} SubstituteRenders(s: string, edits: seq<Edit>, gone: int -> bool, put: int -> string, from: nat, limit: nat)
    requires Fits(edits, from, limit) && limit <= |s| && Describe(edits, gone, put, from, limit)
    requires forall k :: 0 <= k < |edits| ==> edits[k].start < edits[k].end
    ensures from <= limit && Substitute(s, edits, from, limit) == Render(s, gone, put, from, limit)
    decreases |edits|
  {
    FitsOrdered(edits, from, limit);
    FitsBounds(edits, from, limit);
    if edits == [] {
      RenderUntouched(s, gone, put, from, limit);
    } else {
      var e, rest := edits[0], edits[1..];
      RestDescribed(edits, gone, put, from, limit);
      SubstituteRenders(s, rest, gone, put, e.end, limit);
      EditRendered(s, edits, gone, put, from, limit);
      RenderConcat(s, gone, put, from, e.start, limit);
      RenderConcat(s, gone, put, e.start, e.end, limit);
      Assoc(s[from..e.start], e.text, Substitute(s, rest, e.end, limit));
    }
  }

  lemma RestDescribed(edits: seq<Edit>, gone: int -> bool, put: int -> string, from: nat, limit: nat)
    requires Fits(edits, from, limit) && edits != [] && Describe(edits, gone, put, from, limit)
    requires forall k :: 0 <= k < |edits| ==> edits[k].start < edits[k].end
    ensures Describe(edits[1..], gone, put, edits[0].end, limit)
  {
    FitsOrdered(edits, from, limit);
    var e, rest := edits[0], edits[1..];
    forall p | e.end <= p < limit ensures gone(p) <==> Overwritten(rest, p) {
      if gone(p) {
        var k :| 0 <= k < |edits| && edits[k].start <= p < edits[k].end;
        assert rest[k - 1] == edits[k];
      }
      if Overwritten(rest, p) {
        var k :| 0 <= k < |rest| && rest[k].start <= p < rest[k].end;
        assert edits[k + 1] == rest[k];
      }
    }
    forall p | e.end <= p < limit && (forall k :: 0 <= k < |rest| ==> rest[k].start != p) ensures put(p) == "" {
      forall k | 0 <= k < |edits| ensures edits[k].start != p { if k > 0 { assert rest[k - 1] == edits[k]; } }
    }
  }

  lemma EditRendered(s: string, edits: seq<Edit>, gone: int -> bool, put: int -> string, from: nat, limit: nat)
    requires Fits(edits, from, limit) && limit <= |s| && edits != [] && Describe(edits, gone, put, from, limit)
    requires forall k :: 0 <= k < |edits| ==> edits[k].start < edits[k].end
    ensures from <= edits[0].start < edits[0].end <= limit
    ensures Render(s, gone, put, from, edits[0].start) == s[from..edits[0].start]
    ensures Render(s, gone, put, edits[0].start, edits[0].end) == edits[0].text
  {
    FitsOrdered(edits, from, limit);
    EditPositions(edits, gone, put, from, limit);
    hide Describe, Overwritten, Fits;
    var e := edits[0];
    RenderUntouched(s, gone, put, from, e.start);
    RenderReplaced(s, gone, put, e.start, e.end);
  }

  lemma RenderReplaced(s: string, gone: int -> bool, put: int -> string, a: nat, b: nat)
    requires a < b <= |s| && gone(a) && forall p :: a < p < b ==> put(p) == "" && gone(p)
    ensures Render(s, gone, put, a, b) == put(a)
  {
    RenderGone(s, gone, put, a + 1, b);
  }

  lemma EditPositions(edits: seq<Edit>, gone: int -> bool, put: int -> string, from: nat, limit: nat)
    requires Fits(edits, from, limit) && edits != [] && Describe(edits, gone, put, from, limit)
    requires forall k :: 0 <= k < |edits| ==> edits[k].start < edits[k].end
    ensures from <= edits[0].start < edits[0].end <= limit
    ensures forall p :: from <= p < edits[0].start ==> put(p) == "" && !gone(p)
    ensures put(edits[0].start) == edits[0].text && gone(edits[0].start)
    ensures forall p :: edits[0].start < p < edits[0].end ==> put(p) == "" && gone(p)
  {
    FitsOrdered(edits, from, limit);
    hide Fits;
    forall p | edits[0].start <= p < edits[0].end ensures Overwritten(edits, p) {
      assert edits[0].start <= p < edits[0].end;
    }
  }

  // ---- What remains ----

  lemma {:induction false} RemainingConcat(s: string, gone: int -> bool, from: nat, mid: nat, limit: nat)
    requires from <= mid <= limit <= |s|
    ensures Remaining(s, gone, from, limit) == Remaining(s, gone, from, mid) + Remaining(s, gone, mid, limit)
    decreases mid - from
  {
    if from < mid { RemainingConcat(s, gone, from + 1, mid, limit); }
  }

  lemma {:induction false} RemainingUntouched(s: string, gone: int -> bool, from: nat, limit: nat)
    requires from <= limit <= |s| && forall p :: from <= p < limit ==> !gone(p)
    ensures Remaining(s, gone, from, limit) == s[from..limit]
    decreases limit - from
  {
    if from < limit { RemainingUntouched(s, gone, from + 1, limit); }
  }

  lemma {:induction false} RemainingGone(s: string, gone: int -> bool, from: nat, limit: nat)
    requires from <= limit <= |s| && forall p :: from <= p < limit ==> gone(p)
    ensures Remaining(s, gone, from, limit) == ""
    decreases limit - from
  {
    if from < limit { RemainingGone(s, gone, from + 1, limit); }
  }

  lemma {:induction false} RemainingSame(s: string, gone: int -> bool, other: int -> bool, from: nat, limit: nat)
    requires from <= limit <= |s| && forall p :: from <= p < limit ==> gone(p) == other(p)
    ensures Remaining(s, gone, from, limit) == Remaining(s, other, from, limit)
    decreases limit - from
  {
    if from < limit { RemainingSame(s, gone, other, from + 1, limit); }
  }

  /** A stretch of which nothing is gone is found again, behind what remains of the text before it. */
  lemma StretchRemains(s: string, gone: int -> bool, a: nat, b: nat)
    requires a <= b <= |s| && forall p :: a <= p < b ==> !gone(p)
    ensures OccursAt(Remaining(s, gone, 0, |s|), s[a..b], |Remaining(s, gone, 0, a)|)
  {
    RemainingConcat(s, gone, 0, a, |s|);
    RemainingConcat(s, gone, a, b, |s|);
    RemainingUntouched(s, gone, a, b);
    ConcatOccurs(Remaining(s, gone, 0, a), s[a..b], Remaining(s, gone, b, |s|));
  }

  /** Stretches keep their order. */
  lemma StretchesOrdered(s: string, gone: int -> bool, a: nat, b: nat, c: nat)
    requires a <= b <= c <= |s| && forall p :: a <= p < b ==> !gone(p)
    ensures |Remaining(s, gone, 0, a)| + (b - a) <= |Remaining(s, gone, 0, c)|
  {
    RemainingConcat(s, gone, 0, a, c);
    RemainingConcat(s, gone, a, b, c);
    RemainingUntouched(s, gone, a, b);
  }

  /** Taking out one more stretch, of which nothing was gone, shortens the text by exactly its length. */
  lemma OneStretchLess(s: string, gone: int -> bool, more: int -> bool, a: nat, b: nat)
    requires a <= b <= |s| && forall p :: a <= p < b ==> !gone(p) && more(p)
    requires forall p :: 0 <= p < |s| && !(a <= p < b) ==> gone(p) == more(p)
    ensures |Remaining(s, more, 0, |s|)| == |Remaining(s, gone, 0, |s|)| - (b - a)
  {
    RemainingConcat(s, gone, 0, a, |s|);
    RemainingConcat(s, gone, a, b, |s|);
    RemainingConcat(s, more, 0, a, |s|);
    RemainingConcat(s, more, a, b, |s|);
    RemainingUntouched(s, gone, a, b);
    RemainingGone(s, more, a, b);
    RemainingSame(s, gone, more, 0, a);
    RemainingSame(s, gone, more, b, |s|);
  }

  // ---- Spans of several messages ----

  /** Position `p` of message `m` is overwritten by one of the spans. */
  ghost predicate OverwrittenAt(spans: seq<Span>, m: int, p: int) {
    exists k :: 0 <= k < |spans| && spans[k].message == m && spans[k].start <= p < spans[k].end
  }

  /** What the spans do to the `n` positions of message `m`. */
  ghost predicate SpansDescribe(spans: seq<Span>, m: int, gone: int -> bool, put: int -> string, n: int) {
    && (forall p :: 0 <= p < n ==> (gone(p) <==> OverwrittenAt(spans, m, p)))
    && (forall k :: 0 <= k < |spans| && spans[k].message == m ==> put(spans[k].start) == spans[k].text)
    && (forall p :: 0 <= p < n && (forall k :: 0 <= k < |spans| && spans[k].message == m ==> spans[k].start != p) ==> put(p) == "")
  }

  /** Overwriting spans gives each position of a message its due. */
  lemma SubstitutedRenders(contents: seq<string>, spans: seq<Span>, m: int, gone: int -> bool, put: int -> string)
    requires InBounds(contents, spans) && Disjoint(spans) && 0 <= m < |contents|
    requires SpansDescribe(spans, m, gone, put, |contents[m]|)
    ensures SubstituteAt(contents, spans, m) == Render(contents[m], gone, put, 0, |contents[m]|)
  {
    InOrderFits(contents, spans, m);
    InOrderAt(contents, spans, m);
    EditsDescribed(spans, m, gone, put, |contents[m]|);
    SubstituteRenders(contents[m], EditsAt(spans, m), gone, put, 0, |contents[m]|);
  }

  lemma EditsDescribed(spans: seq<Span>, m: int, gone: int -> bool, put: int -> string, n: nat)
    requires SpansDescribe(spans, m, gone, put, n)
    ensures Describe(EditsAt(spans, m), gone, put, 0, n)
  {
    hide InOrder;
    var sorted, edits := InOrder(spans, m), EditsAt(spans, m);
    forall k | 0 <= k < |edits| ensures put(edits[k].start) == edits[k].text {
      InOrderElement(spans, m, sorted[k]);
    }
    forall p | 0 <= p < n ensures gone(p) <==> Overwritten(edits, p) {
      OverwrittenEither(spans, m, p);
    }
    forall p | 0 <= p < n && (forall k :: 0 <= k < |edits| ==> edits[k].start != p) ensures put(p) == "" {
      forall k | 0 <= k < |spans| && spans[k].message == m ensures spans[k].start != p {
        InOrderElement(spans, m, spans[k]);
        var j :| 0 <= j < |sorted| && sorted[j] == spans[k];
        assert edits[j].start == spans[k].start;
      }
    }
  }

  lemma OverwrittenEither(spans: seq<Span>, m: int, p: int)
    ensures OverwrittenAt(spans, m, p) <==> Overwritten(EditsAt(spans, m), p)
  {
    hide InOrder;
    var sorted, edits := InOrder(spans, m), EditsAt(spans, m);
    if OverwrittenAt(spans, m, p) {
      var k :| 0 <= k < |spans| && spans[k].message == m && spans[k].start <= p < spans[k].end;
      InOrderElement(spans, m, spans[k]);
      var j :| 0 <= j < |sorted| && sorted[j] == spans[k];
      assert edits[j].start <= p < edits[j].end;
    }
    if Overwritten(edits, p) {
      var j :| 0 <= j < |edits| && edits[j].start <= p < edits[j].end;
      InOrderElement(spans, m, sorted[j]);
      var k :| 0 <= k < |spans| && spans[k] == sorted[j];
    }
  }
}
