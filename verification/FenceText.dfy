/** Fences around spans of one text: a marker put on each side, and the edits that take them out again. */
module FenceText {
  import opened TextEdits

  /** Insert `before` at `start` and `after` at `end`. */
  datatype Fence = Fence(start: int, end: int, before: string, after: string)

  ghost predicate FencesFit(fences: seq<Fence>, from: int, to: int) {
    if fences == [] then 0 <= from <= to
    else 0 <= from <= fences[0].start < fences[0].end && FencesFit(fences[1..], fences[0].end, to)
  }

  /** Each fence as one edit that rewrites the span, as the lease installs it. */
  ghost function Wraps(s: string, fences: seq<Fence>, from: int): (r: seq<Edit>)
    requires FencesFit(fences, from, |s|)
    ensures |r| == |fences|
    ensures Fits(r, from, |s|)
  {
    FencesBounds(fences, from, |s|);
    if fences == [] then []
    else
      var f := fences[0];
      [Edit(f.start, f.end, f.before + s[f.start..f.end] + f.after)] + Wraps(s, fences[1..], f.end)
  }

  /** The same fences as pure insertions, two for each. */
  ghost function Marks(fences: seq<Fence>): (r: seq<Edit>)
    ensures |r| == 2 * |fences|
    ensures forall k :: 0 <= k < |fences| ==> r[2 * k] == Edit(fences[k].start, fences[k].start, fences[k].before)
    ensures forall k :: 0 <= k < |fences| ==> r[2 * k + 1] == Edit(fences[k].end, fences[k].end, fences[k].after)
  {
    if fences == [] then []
    else
      var f := fences[0];
      var head, rest := [Edit(f.start, f.start, f.before), Edit(f.end, f.end, f.after)], Marks(fences[1..]);
      assert forall k :: 1 <= k < |fences| ==> (head + rest)[2 * k] == rest[2 * (k - 1)] && fences[k] == fences[1..][k - 1];
      assert forall k :: 1 <= k < |fences| ==> (head + rest)[2 * k + 1] == rest[2 * (k - 1) + 1];
      head + rest
  }

  lemma {:induction false} FencesBounds(fences: seq<Fence>, from: int, to: int)
    requires FencesFit(fences, from, to)
    ensures 0 <= from <= to
    ensures fences != [] ==> fences[0].end <= to
  {
    if fences != [] { FencesBounds(fences[1..], fences[0].end, to); }
  }

  /** Wrapping spans and inserting the markers are the same. */
  lemma {:induction false} WrapsAreMarks(s: string, fences: seq<Fence>, from: int)
    requires FencesFit(fences, from, |s|)
    ensures Fits(Marks(fences), from, |s|)
    ensures Substitute(s, Wraps(s, fences, from), from, |s|) == Substitute(s, Marks(fences), from, |s|)
  {
    FencesBounds(fences, from, |s|);
    if fences != [] {
      var f := fences[0];
      WrapsAreMarks(s, fences[1..], f.end);
      var marks := Marks(fences);
      assert marks[2..] == Marks(fences[1..]) && marks[1..][1..] == marks[2..];
      FencesBounds(fences[1..], f.end, |s|);
      var tail := Substitute(s, Marks(fences[1..]), f.end, |s|);
      var body := s[f.start..f.end];
      assert Substitute(s, marks[1..], f.start, |s|) == body + f.after + tail;
      assert Substitute(s, marks, from, |s|) == s[from..f.start] + f.before + (body + f.after + tail);
      FourParts(s[from..f.start], f.before, body, f.after, tail);
    }
  }

  lemma FourParts(a: string, b: string, c: string, d: string, e: string)
    ensures a + b + (c + d + e) == a + (b + c + d) + e
  {
  }

  // ---- Taking edits back ----

  /** The edit of the edited text that takes edit `k` back. */
  ghost predicate TakesBack(s: string, edits: seq<Edit>, k: nat, e: Edit)
    requires k < |edits|
  {
    && 0 <= edits[k].start <= edits[k].end <= |s|
    && e == Edit(Landing(edits, k), Landing(edits, k) + |edits[k].text|, s[edits[k].start..edits[k].end])
  }

  /** What to do to the edited text to get the original back. */
  ghost predicate Inverse(s: string, edits: seq<Edit>, inverse: seq<Edit>) {
    |inverse| == |edits| && forall k :: 0 <= k < |edits| ==> TakesBack(s, edits, k, inverse[k])
  }

  lemma {:induction false} GrowthConcat(a: seq<Edit>, b: seq<Edit>)
    ensures Growth(a + b) == Growth(a) + Growth(b)
  {
    if a == [] {
      assert a + b == b;
    } else {
      GrowthConcat(a[1..], b);
      assert (a + b)[1..] == a[1..] + b;
    }
  }

  lemma GrowthNext(edits: seq<Edit>, k: nat)
    requires k < |edits|
    ensures Growth(edits[..k + 1]) == Growth(edits[..k]) + |edits[k].text| - (edits[k].end - edits[k].start)
  {
    GrowthConcat(edits[..k], [edits[k]]);
    assert edits[..k + 1] == edits[..k] + [edits[k]];
    assert Growth([edits[k]]) == |edits[k].text| - (edits[k].end - edits[k].start) + Growth([edits[k]][1..]);
  }

  lemma {:induction false} LandingsOrdered(edits: seq<Edit>, from: int, to: int, i: nat, j: nat)
    requires Fits(edits, from, to) && i < j < |edits|
    ensures Landing(edits, i) + |edits[i].text| <= Landing(edits, j)
    decreases j
  {
    GrowthNext(edits, j - 1);
    FitsOrdered(edits, from, to);
    if i < j - 1 {
      LandingsOrdered(edits, from, to, i, j - 1);
    }
  }

  lemma InverseFits(s: string, edits: seq<Edit>, inv: seq<Edit>)
    requires Fits(edits, 0, |s|) && Inverse(s, edits, inv)
    ensures Fits(inv, 0, |Substitute(s, edits, 0, |s|)|)
  {
    var t := Substitute(s, edits, 0, |s|);
    forall k | 0 <= k < |edits| ensures 0 <= inv[k].start <= inv[k].end <= |t| {
      assert TakesBack(s, edits, k, inv[k]);
      LandingOccurs(s, edits, k);
    }
    forall i, j | 0 <= i < j < |edits| ensures inv[i].end <= inv[j].start {
      assert TakesBack(s, edits, i, inv[i]) && TakesBack(s, edits, j, inv[j]);
      LandingsOrdered(edits, 0, |s|, i, j);
    }
    FitsIntro(inv, 0, |t|);
  }

  lemma InverseInit(s: string, edits: seq<Edit>, inv: seq<Edit>)
    requires Inverse(s, edits, inv) && edits != []
    ensures Inverse(s, edits[..|edits| - 1], inv[..|edits| - 1])
  {
    var init := edits[..|edits| - 1];
    forall k | 0 <= k < |init| ensures TakesBack(s, init, k, inv[k]) {
      assert TakesBack(s, edits, k, inv[k]);
      assert init[..k] == edits[..k];
    }
  }

  lemma {:induction false} FitsWiden(edits: seq<Edit>, from: int, to: int, wider: int)
    requires Fits(edits, from, to) && to <= wider
    ensures Fits(edits, from, wider)
  {
    if edits != [] { FitsWiden(edits[1..], edits[0].end, to, wider); }
  }

  /** Edits left of a change see only what is left of it. */
  lemma {:induction false} SubstituteLocal(s: string, t: string, edits: seq<Edit>, from: int, to: int)
    requires Fits(edits, from, to) && 0 <= to <= |s| && to <= |t| && s[..to] == t[..to]
    ensures Substitute(s, edits, from, to) == Substitute(t, edits, from, to)
  {
    FitsBounds(edits, from, to);
    if edits == [] {
      SlicesEqual(s, t, to, from, to);
    } else {
      SlicesEqual(s, t, to, from, edits[0].start);
      SubstituteLocal(s, t, edits[1..], edits[0].end, to);
    }
  }

  lemma SlicesEqual(s: string, t: string, n: int, a: int, b: int)
    requires 0 <= a <= b <= n <= |s| && n <= |t| && s[..n] == t[..n]
    ensures s[a..b] == t[a..b]
  {
    assert s[a..b] == s[..n][a..b] && t[a..b] == t[..n][a..b];
  }

  /** Substituting is the same as splicing the last edit first and substituting the others. */
  lemma LastFirst(s: string, init: seq<Edit>, last: Edit)
    requires Fits(init + [last], 0, |s|)
    ensures Fits(init, 0, last.start) && 0 <= last.start <= last.end <= |s|
    ensures Fits(init, 0, |Splice(s, last)|)
    ensures Substitute(s, init + [last], 0, |s|) == Substitute(Splice(s, last), init, 0, |Splice(s, last)|)
  {
    var edits := init + [last];
    FitsCut(edits, |init|, 0, |s|);
    assert edits[..|init|] == init;
    var t := Splice(s, last);
    FitsWiden(init, 0, last.start, |t|);
    SubstituteAround(s, edits, |init|, 0, |s|);
    assert edits[|init| + 1..] == [];
    SubstituteConcat(t, init, [], 0, last.start, |t|);
    assert init + [] == init;
    assert t[..last.start] == s[..last.start];
    SubstituteLocal(s, t, init, 0, last.start);
    assert t[last.start..] == last.text + s[last.end..];
  }

  /** Taking the last edit back leaves the text in which only the others were made. */
  lemma UndoLast(s: string, edits: seq<Edit>, e: Edit)
    requires Fits(edits, 0, |s|) && edits != [] && TakesBack(s, edits, |edits| - 1, e)
    ensures Fits(edits[..|edits| - 1], 0, |s|)
    ensures 0 <= e.start <= e.end <= |Substitute(s, edits, 0, |s|)|
    ensures Splice(Substitute(s, edits, 0, |s|), e) == Substitute(s, edits[..|edits| - 1], 0, |s|)
  {
    var n := |edits| - 1;
    UndoOne(s, edits, n);
    assert edits[..n] + edits[n + 1..] == edits[..n];
  }

  /** Taking every edit back gives the original. */
  lemma {:induction false} InverseRestores(s: string, edits: seq<Edit>, inv: seq<Edit>)
    requires Fits(edits, 0, |s|) && Inverse(s, edits, inv)
    ensures Fits(inv, 0, |Substitute(s, edits, 0, |s|)|)
    ensures Substitute(Substitute(s, edits, 0, |s|), inv, 0, |Substitute(s, edits, 0, |s|)|) == s
    decreases |edits|
  {
    InverseFits(s, edits, inv);
    if edits != [] {
      var n := |edits| - 1;
      UndoLast(s, edits, inv[n]);
      InverseInit(s, edits, inv);
      InverseRestores(s, edits[..n], inv[..n]);
      RestoreLastFirst(Substitute(s, edits, 0, |s|), inv, Substitute(s, edits[..n], 0, |s|));
    }
  }

  lemma RestoreLastFirst(t: string, inv: seq<Edit>, u: string)
    requires Fits(inv, 0, |t|) && inv != []
    requires 0 <= inv[|inv| - 1].start <= inv[|inv| - 1].end <= |t| && u == Splice(t, inv[|inv| - 1])
    ensures Fits(inv[..|inv| - 1], 0, |u|)
    ensures Substitute(t, inv, 0, |t|) == Substitute(u, inv[..|inv| - 1], 0, |u|)
  {
    var n := |inv| - 1;
    assert inv == inv[..n] + [inv[n]];
    LastFirst(t, inv[..n], inv[n]);
  }
}
