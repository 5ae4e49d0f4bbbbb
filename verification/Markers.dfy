/** Bracketed markers: texts that start with a private-use opening character, end with a closing one,
    and hold neither anywhere else. Inserting such markers never creates further occurrences of one. */
module Markers {
  import opened TextEdits

  ghost predicate Bracketed(p: string, open: char, close: char) {
    && |p| >= 2 && open != close
    && p[0] == open && p[|p| - 1] == close
    && (forall i :: 0 < i < |p| ==> p[i] != open)
    && (forall i :: 0 <= i < |p| - 1 ==> p[i] != close)
  }

  ghost predicate AllBracketed(edits: seq<Edit>, open: char, close: char) {
    forall k :: 0 <= k < |edits| ==> Bracketed(edits[k].text, open, close)
  }

  /** An occurrence of one bracketed marker neither straddles, nests in nor prefixes another. */
  lemma MarkerInThreeParts(a: string, r: string, b: string, p: string, i: int, open: char, close: char)
    requires Bracketed(r, open, close) && Bracketed(p, open, close)
    requires OccursAt(a + r + b, p, i)
    ensures i + |p| <= |a| || (i == |a| && p == r) || |a| + |r| <= i
    ensures i + |p| <= |a| ==> OccursAt(a, p, i)
    ensures |a| + |r| <= i ==> OccursAt(b, p, i - |a| - |r|)
  {
    var t := a + r + b;
    assert forall k :: |a| <= k < |a| + |r| ==> t[k] == r[k - |a|];
    var u := t[i..i + |p|];
    assert forall k :: i <= k < i + |p| ==> t[k] == u[k - i];
    var r0, r1, p0, p1 := t[|a|], t[|a| + |r| - 1], t[i], t[i + |p| - 1];
    if i + |p| <= |a| {
      assert a[i..i + |p|] == p;
    } else if |a| + |r| <= i {
      assert b[i - |a| - |r|..i - |a| - |r| + |p|] == p;
    } else if i != |a| || |p| != |r| {
      assert false;
    } else {
      assert p == r;
    }
  }

  /** A marker found in an edited text is one of the inserted ones, where it was inserted, or was in the original. */
  lemma {:induction false} MarkerOrigin(
      s: string, edits: seq<Edit>, from: int, to: int, p: string, i: int, open: char, close: char)
    returns (inserted: bool, at: int)
    requires Fits(edits, from, to) && to <= |s|
    requires AllBracketed(edits, open, close) && Bracketed(p, open, close)
    requires OccursAt(Substitute(s, edits, from, to), p, i)
    ensures inserted ==> 0 <= at < |edits| && edits[at].text == p && i + from == Landing(edits, at)
    ensures !inserted ==> OccursAt(s, p, at)
  {
    FitsBounds(edits, from, to);
    if edits == [] {
      OccursInSlice(s, from, to, p, i);
      return false, from + i;
    }
    var e := edits[0];
    var tail := Substitute(s, edits[1..], e.end, to);
    MarkerInThreeParts(s[from..e.start], e.text, tail, p, i, open, close);
    if i + |p| <= e.start - from {
      OccursInSlice(s, from, e.start, p, i);
      return false, from + i;
    } else if i == e.start - from {
      return true, 0;
    } else {
      inserted, at := MarkerOrigin(s, edits[1..], e.end, to, p, i - (e.start - from) - |e.text|, open, close);
      if inserted {
        assert edits[..at + 1][1..] == edits[1..][..at];
        at := at + 1;
      }
    }
  }

  lemma OccursInSlice(s: string, from: int, to: int, p: string, i: int)
    requires 0 <= from <= to <= |s| && OccursAt(s[from..to], p, i)
    ensures OccursAt(s, p, from + i)
  {
    var t := s[from..to];
    var u, v := t[i..i + |p|], s[from + i..from + i + |p|];
    assert forall k :: 0 <= k < |p| ==> u[k] == t[i + k] == v[k];
    assert u == v;
  }
}
