/** Edits of one text: a list of spans to overwrite, read as one parallel substitution.
    The extension applies such lists from right to left, one splice at a time, so that the
    offsets of the spans still to be edited stay valid. The lemmas here say what that computes. */
module TextEdits {

  /** Overwrite the characters from `start` up to `end` with `text`. */
  datatype Edit = Edit(start: int, end: int, text: string)

  predicate OccursAt(s: string, p: string, i: int) {
    0 <= i && i + |p| <= |s| && s[i..i + |p|] == p
  }

  /** The edits lie between `from` and `to`, in order and without overlapping. */
  ghost predicate Fits(edits: seq<Edit>, from: int, to: int) {
    if edits == [] then 0 <= from <= to
    else 0 <= from <= edits[0].start <= edits[0].end && Fits(edits[1..], edits[0].end, to)
  }

  /** All edits at once, on the characters of `s` from `from` up to `to`. */
  ghost function Substitute(s: string, edits: seq<Edit>, from: int, to: int): string
    requires Fits(edits, from, to) && to <= |s|
  {
    FitsBounds(edits, from, to);
    if edits == [] then s[from..to]
    else s[from..edits[0].start] + edits[0].text + Substitute(s, edits[1..], edits[0].end, to)
  }

  function Splice(s: string, e: Edit): string
    requires 0 <= e.start <= e.end <= |s|
  {
    s[..e.start] + e.text + s[e.end..]
  }

  /** How much longer the edited text is than the original. */
  ghost function Growth(edits: seq<Edit>): int {
    if edits == [] then 0
    else |edits[0].text| - (edits[0].end - edits[0].start) + Growth(edits[1..])
  }

  lemma {:induction false} FitsBounds(edits: seq<Edit>, from: int, to: int)
    requires Fits(edits, from, to)
    ensures 0 <= from <= to
    ensures edits != [] ==> edits[0].end <= to
  {
    if edits != [] { FitsBounds(edits[1..], edits[0].end, to); }
  }

  lemma {:induction false} FitsOrdered(edits: seq<Edit>, from: int, to: int)
    requires Fits(edits, from, to)
    ensures forall i :: 0 <= i < |edits| ==> from <= edits[i].start <= edits[i].end <= to
    ensures forall i, j :: 0 <= i < j < |edits| ==> edits[i].end <= edits[j].start
  {
    FitsBounds(edits, from, to);
    if edits != [] { FitsOrdered(edits[1..], edits[0].end, to); }
  }

  /** Edits inside the range and in order fit it. */
  lemma {:induction false} FitsIntro(edits: seq<Edit>, from: int, to: int)
    requires 0 <= from <= to
    requires forall i :: 0 <= i < |edits| ==> from <= edits[i].start <= edits[i].end <= to
    requires forall i, j :: 0 <= i < j < |edits| ==> edits[i].end <= edits[j].start
    ensures Fits(edits, from, to)
  {
    if edits != [] { FitsIntro(edits[1..], edits[0].end, to); }
  }

  lemma Assoc(x: string, y: string, z: string)
    ensures (x + y) + z == x + (y + z)
  {
  }

  lemma SliceConcat(s: string, a: int, b: int, c: int)
    requires 0 <= a <= b <= c <= |s|
    ensures s[a..b] + s[b..c] == s[a..c]
  {
  }

  lemma SubstituteFromEarlier(s: string, edits: seq<Edit>, from: int, mid: int, to: int)
    requires Fits(edits, mid, to) && 0 <= from <= mid && to <= |s|
    ensures Fits(edits, from, to) && mid <= to
    ensures Substitute(s, edits, from, to) == s[from..mid] + Substitute(s, edits, mid, to)
  {
    FitsBounds(edits, mid, to);
    if edits == [] {
      SliceConcat(s, from, mid, to);
    } else {
      var e := edits[0];
      SliceConcat(s, from, mid, e.start);
      Assoc(s[from..mid], s[mid..e.start], e.text);
      Assoc(s[from..mid], s[mid..e.start] + e.text, Substitute(s, edits[1..], e.end, to));
    }
  }

  /** Substitution distributes over any cut that no edit straddles. */
  lemma {:induction false} SubstituteConcat(s: string, a: seq<Edit>, b: seq<Edit>, from: int, mid: int, to: int)
    requires Fits(a, from, mid) && Fits(b, mid, to) && to <= |s|
    ensures Fits(a + b, from, to) && from <= mid <= to
    ensures Substitute(s, a + b, from, to) == Substitute(s, a, from, mid) + Substitute(s, b, mid, to)
  {
    FitsBounds(a, from, mid);
    if a == [] {
      assert a + b == b;
      SubstituteFromEarlier(s, b, from, mid, to);
    } else {
      var e := a[0];
      SubstituteConcat(s, a[1..], b, e.end, mid, to);
      assert (a + b)[1..] == a[1..] + b;
      Assoc(s[from..e.start] + e.text, Substitute(s, a[1..], e.end, mid), Substitute(s, b, mid, to));
    }
  }

  lemma {:induction false} SubstituteLength(s: string, edits: seq<Edit>, from: int, to: int)
    requires Fits(edits, from, to) && to <= |s|
    ensures |Substitute(s, edits, from, to)| == to - from + Growth(edits)
  {
    FitsBounds(edits, from, to);
    if edits != [] { SubstituteLength(s, edits[1..], edits[0].end, to); }
  }

  lemma FitsCut(edits: seq<Edit>, k: nat, from: int, to: int)
    requires Fits(edits, from, to) && k < |edits|
    ensures from <= edits[k].start <= edits[k].end <= to
    ensures Fits(edits[..k], from, edits[k].start) && Fits(edits[k + 1..], edits[k].end, to)
    ensures Fits(edits[k..], edits[k].start, to)
  {
    FitsOrdered(edits, from, to);
    FitsIntro(edits[..k], from, edits[k].start);
    FitsIntro(edits[k + 1..], edits[k].end, to);
    FitsIntro(edits[k..], edits[k].start, to);
  }

  /** The edited text, cut around edit `k`. */
  lemma SubstituteAround(s: string, edits: seq<Edit>, k: nat, from: int, to: int)
    requires Fits(edits, from, to) && to <= |s| && k < |edits|
    ensures Fits(edits[..k], from, edits[k].start) && Fits(edits[k + 1..], edits[k].end, to)
    ensures from <= edits[k].start <= edits[k].end <= to
    ensures Substitute(s, edits, from, to)
         == Substitute(s, edits[..k], from, edits[k].start) + (edits[k].text + Substitute(s, edits[k + 1..], edits[k].end, to))
  {
    FitsCut(edits, k, from, to);
    var st := edits[k].start;
    SubstituteConcat(s, edits[..k], edits[k..], from, st, to);
    assert edits[..k] + edits[k..] == edits && edits[k..][1..] == edits[k + 1..] && edits[k..][0] == edits[k];
    assert s[st..st] == "";
    assert s[st..st] + edits[k].text == edits[k].text;
  }

  /** Where edit `k` puts its text. */
  ghost function Landing(edits: seq<Edit>, k: nat): int
    requires k < |edits|
  {
    edits[k].start + Growth(edits[..k])
  }

  lemma ConcatOccurs(a: string, b: string, c: string)
    ensures OccursAt(a + (b + c), b, |a|)
  {
  }

  lemma LandingOccurs(s: string, edits: seq<Edit>, k: nat)
    requires Fits(edits, 0, |s|) && k < |edits|
    ensures OccursAt(Substitute(s, edits, 0, |s|), edits[k].text, Landing(edits, k))
  {
    SubstituteAround(s, edits, k, 0, |s|);
    SubstituteLength(s, edits[..k], 0, edits[k].start);
    ConcatOccurs(Substitute(s, edits[..k], 0, edits[k].start), edits[k].text, Substitute(s, edits[k + 1..], edits[k].end, |s|));
  }

  lemma SpliceMiddle(a: string, b: string, c: string, b': string)
    ensures Splice(a + (b + c), Edit(|a|, |a| + |b|, b')) == a + (b' + c)
  {
  }

  /** One more splice to the left of everything already edited: the step of every right-to-left loop. */
  lemma SpliceOnTheLeft(s: string, e: Edit, rest: seq<Edit>)
    requires Fits([e] + rest, 0, |s|)
    ensures Fits(rest, 0, |s|)
    ensures e.end <= |s| && e.end <= |Substitute(s, rest, 0, |s|)|
    ensures Substitute(s, rest, 0, |s|)[..e.end] == s[..e.end]
    ensures Splice(Substitute(s, rest, 0, |s|), e) == Substitute(s, [e] + rest, 0, |s|)
  {
    assert ([e] + rest)[1..] == rest;
    FitsBounds(rest, e.end, |s|);
    SubstituteFromEarlier(s, rest, 0, e.end, |s|);
    var tail := Substitute(s, rest, e.end, |s|);
    SliceConcat(s, 0, e.start, e.end);
    Assoc(s[0..e.start], s[e.start..e.end], tail);
    SpliceMiddle(s[0..e.start], s[e.start..e.end], tail, e.text);
    Assoc(s[0..e.start], e.text, tail);
  }

  /** Undoing one edit by hand gives the text in which it was never made. */
  lemma UndoOne(s: string, edits: seq<Edit>, k: nat)
    requires Fits(edits, 0, |s|) && k < |edits|
    ensures Fits(edits[..k] + edits[k + 1..], 0, |s|)
    ensures 0 <= edits[k].start <= edits[k].end <= |s|
    ensures OccursAt(Substitute(s, edits, 0, |s|), edits[k].text, Landing(edits, k))
    ensures Splice(Substitute(s, edits, 0, |s|),
                   Edit(Landing(edits, k), Landing(edits, k) + |edits[k].text|, s[edits[k].start..edits[k].end]))
         == Substitute(s, edits[..k] + edits[k + 1..], 0, |s|)
  {
    var a, b, st, en := edits[..k], edits[k + 1..], edits[k].start, edits[k].end;
    LandingOccurs(s, edits, k);
    SubstituteAround(s, edits, k, 0, |s|);
    SubstituteLength(s, a, 0, st);
    var left, right := Substitute(s, a, 0, st), Substitute(s, b, en, |s|);
    SpliceMiddle(left, edits[k].text, right, s[st..en]);
    SubstituteFromEarlier(s, b, st, en, |s|);
    SubstituteConcat(s, a, b, 0, st, |s|);
  }

  lemma FitsAround(edits: seq<Edit>, k: nat, a: int, b: int, to: int)
    requires Fits(edits, 0, to) && k <= |edits| && 0 <= a <= b <= to
    requires k > 0 ==> edits[k - 1].end <= a
    requires k < |edits| ==> b <= edits[k].start
    ensures Fits(edits[..k], 0, a) && Fits(edits[k..], b, to)
  {
    FitsOrdered(edits, 0, to);
    FitsIntro(edits[..k], 0, a);
    FitsIntro(edits[k..], b, to);
  }

  lemma SubstituteBetween(s: string, edits: seq<Edit>, k: nat, a: int, b: int)
    requires Fits(edits, 0, |s|) && k <= |edits| && 0 <= a <= b <= |s|
    requires Fits(edits[..k], 0, a) && Fits(edits[k..], b, |s|)
    ensures Substitute(s, edits, 0, |s|)
         == Substitute(s, edits[..k], 0, a) + (s[a..b] + Substitute(s, edits[k..], b, |s|))
  {
    SubstituteFromEarlier(s, edits[k..], a, b, |s|);
    SubstituteConcat(s, edits[..k], edits[k..], 0, a, |s|);
    assert edits[..k] + edits[k..] == edits;
  }

  /** A span of the original that no edit touches is found again, shifted by the edits before it. */
  lemma SliceSurvives(s: string, edits: seq<Edit>, k: nat, a: int, b: int)
    requires Fits(edits, 0, |s|) && k <= |edits| && 0 <= a <= b <= |s|
    requires k > 0 ==> edits[k - 1].end <= a
    requires k < |edits| ==> b <= edits[k].start
    ensures OccursAt(Substitute(s, edits, 0, |s|), s[a..b], a + Growth(edits[..k]))
  {
    FitsAround(edits, k, a, b, |s|);
    SubstituteBetween(s, edits, k, a, b);
    SubstituteLength(s, edits[..k], 0, a);
    var left, body, right := Substitute(s, edits[..k], 0, a), s[a..b], Substitute(s, edits[k..], b, |s|);
    ConcatOccurs(left, body, right);
  }
}
