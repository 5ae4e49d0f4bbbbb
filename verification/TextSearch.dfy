/** `String.prototype.indexOf` and the scan for every occurrence, overlapping ones included. */
module TextSearch {
  import opened TextEdits

  /** The first occurrence of `p` at or after `from`, or -1. */
  function IndexOf(s: string, p: string, from: nat): (r: int)
    requires from <= |s| + 1
    ensures r == -1 || (from <= r && OccursAt(s, p, r))
    ensures forall i :: from <= i && (r == -1 || i < r) ==> !OccursAt(s, p, i)
    decreases |s| + 1 - from
  {
    if from + |p| > |s| then -1
    else if s[from..from + |p|] == p then from
    else IndexOf(s, p, from + 1)
  }

  predicate Includes(s: string, p: string) {
    IndexOf(s, p, 0) != -1
  }

  lemma IncludesIff(s: string, p: string)
    ensures Includes(s, p) <==> exists i :: OccursAt(s, p, i)
  {
    var r := IndexOf(s, p, 0);
    if r != -1 { assert OccursAt(s, p, r); }
    if i :| OccursAt(s, p, i) { assert 0 <= i; }
  }

  /** An occurrence in a list of messages. */
  datatype Occurrence = Occurrence(message: int, start: int)

  ghost predicate FoundAt(contents: seq<string>, p: string, o: Occurrence) {
    0 <= o.message < |contents| && OccursAt(contents[o.message], p, o.start)
  }

  /** The one place where a text is found. */
  ghost predicate OnlyAt(contents: seq<string>, p: string, o: Occurrence) {
    FoundAt(contents, p, o) && forall o' :: FoundAt(contents, p, o') ==> o' == o
  }

  ghost predicate Before(a: Occurrence, b: Occurrence) {
    a.message < b.message || (a.message == b.message && a.start < b.start)
  }

  /** The list `found` holds exactly the occurrences of `p`, in reading order. */
  ghost predicate AllOccurrences(contents: seq<string>, p: string, found: seq<Occurrence>) {
    && (forall k :: 0 <= k < |found| ==> FoundAt(contents, p, found[k]))
    && (forall o :: FoundAt(contents, p, o) ==> o in found)
    && (forall j, k :: 0 <= j < k < |found| ==> Before(found[j], found[k]))
  }

  method FindOccurrences(contents: seq<string>, p: string) returns (found: seq<Occurrence>)
    requires p != ""
    ensures AllOccurrences(contents, p, found)
  {
    found := [];
    for m := 0 to |contents|
      invariant forall k :: 0 <= k < |found| ==> FoundAt(contents, p, found[k]) && found[k].message < m
      invariant forall o :: FoundAt(contents, p, o) && o.message < m ==> o in found
      invariant forall j, k :: 0 <= j < k < |found| ==> Before(found[j], found[k])
    {
      var content := contents[m];
      var start := IndexOf(content, p, 0);
      while start >= 0
        invariant start == -1 || OccursAt(content, p, start)
        invariant forall k :: 0 <= k < |found| ==> FoundAt(contents, p, found[k]) && found[k].message <= m
        invariant forall k :: 0 <= k < |found| && found[k].message == m && start >= 0 ==> found[k].start < start
        invariant forall o :: FoundAt(contents, p, o) && (o.message < m || (o.message == m && (start < 0 || o.start < start))) ==> o in found
        invariant forall j, k :: 0 <= j < k < |found| ==> Before(found[j], found[k])
        decreases if start < 0 then 0 else |content| + 1 - start
      {
        found := found + [Occurrence(m, start)];
        start := IndexOf(content, p, start + 1);
      }
    }
  }

  /** Exactly one occurrence is found when and only when there is exactly one. */
  lemma OneOccurrence(contents: seq<string>, p: string, found: seq<Occurrence>, o: Occurrence)
    requires AllOccurrences(contents, p, found) && FoundAt(contents, p, o)
    ensures |found| == 1 <==> forall o' :: FoundAt(contents, p, o') ==> o' == o
    ensures |found| == 1 ==> found == [o]
    ensures found != []
  {
    assert o in found;
    if |found| == 1 {
      assert found[0] == o;
    } else {
      assert Before(found[0], found[1]);
      var other := if found[0] == o then found[1] else found[0];
      assert FoundAt(contents, p, other) && other != o;
    }
  }
}
