/** Stable sorting by an integer pair, as `Array.prototype.sort` is used throughout the extension:
    by one numeric field, or by a field and then a second one to break ties. */
module Ordering {

  type Key = (int, int)

  predicate Less(a: Key, b: Key) {
    a.0 < b.0 || (a.0 == b.0 && a.1 < b.1)
  }

  ghost predicate Sorted<T>(xs: seq<T>, key: T -> Key) {
    forall i, j :: 0 <= i < j < |xs| ==> !Less(key(xs[j]), key(xs[i]))
  }

  ghost predicate StrictlySorted<T>(xs: seq<T>, key: T -> Key) {
    forall i, j :: 0 <= i < j < |xs| ==> Less(key(xs[i]), key(xs[j]))
  }

  ghost predicate DistinctKeys<T>(xs: seq<T>, key: T -> Key) {
    forall i, j :: 0 <= i < j < |xs| ==> key(xs[i]) != key(xs[j])
  }

  function Insert<T>(x: T, xs: seq<T>, key: T -> Key): (r: seq<T>)
    ensures multiset(r) == multiset(xs) + multiset{x}
  {
    if xs == [] then [x]
    else if Less(key(x), key(xs[0])) then [x] + xs
    else
      assert xs == [xs[0]] + xs[1..];
      [xs[0]] + Insert(x, xs[1..], key)
  }

  function Sort<T>(xs: seq<T>, key: T -> Key): (r: seq<T>)
    ensures multiset(r) == multiset(xs)
  {
    if xs == [] then []
    else
      assert xs == xs[..|xs| - 1] + [xs[|xs| - 1]];
      Insert(xs[|xs| - 1], Sort(xs[..|xs| - 1], key), key)
  }

  lemma InsertElement<T>(x: T, xs: seq<T>, key: T -> Key, y: T)
    ensures y in Insert(x, xs, key) <==> y == x || y in xs
  {
    assert y in Insert(x, xs, key) <==> y in multiset(Insert(x, xs, key));
    assert y in xs <==> y in multiset(xs);
  }

  lemma {:induction false} InsertSorted<T>(x: T, xs: seq<T>, key: T -> Key)
    requires Sorted(xs, key)
    ensures Sorted(Insert(x, xs, key), key)
  {
    if xs != [] && !Less(key(x), key(xs[0])) {
      InsertSorted(x, xs[1..], key);
      var rest := Insert(x, xs[1..], key);
      forall j | 0 <= j < |rest| ensures !Less(key(rest[j]), key(xs[0])) {
        assert rest[j] in rest;
        InsertElement(x, xs[1..], key, rest[j]);
      }
    }
  }

  lemma {:induction false} SortSorted<T>(xs: seq<T>, key: T -> Key)
    ensures Sorted(Sort(xs, key), key)
  {
    if xs != [] {
      SortSorted(xs[..|xs| - 1], key);
      InsertSorted(xs[|xs| - 1], Sort(xs[..|xs| - 1], key), key);
    }
  }

  lemma SortElement<T>(xs: seq<T>, key: T -> Key, x: T)
    ensures x in Sort(xs, key) <==> x in xs
  {
    assert x in Sort(xs, key) <==> x in multiset(Sort(xs, key));
    assert x in xs <==> x in multiset(xs);
  }

  /** A strictly sorted sequence is determined by the set of its elements. */
  lemma {:induction false} StrictlySortedUnique<T>(xs: seq<T>, ys: seq<T>, key: T -> Key)
    requires StrictlySorted(xs, key) && StrictlySorted(ys, key)
    requires forall x :: x in xs <==> x in ys
    ensures xs == ys
  {
    if xs == [] {
      assert forall i :: 0 <= i < |ys| ==> ys[i] in ys;
    } else {
      assert xs[0] in ys && xs[0] in xs;
      assert ys != [];
      assert ys[0] in ys && ys[0] in xs;
      assert xs[0] == ys[0];
      forall x ensures x in xs[1..] <==> x in ys[1..] {
        if x in xs[1..] { assert x in xs; assert x != xs[0]; }
        if x in ys[1..] { assert x in ys; assert x != ys[0]; }
      }
      StrictlySortedUnique(xs[1..], ys[1..], key);
      assert xs == [xs[0]] + xs[1..] && ys == [ys[0]] + ys[1..];
    }
  }

  /** Sorting elements with pairwise different keys leaves the keys strictly increasing. */
  lemma {:induction false} SortStrict<T>(xs: seq<T>, key: T -> Key)
    requires DistinctKeys(xs, key)
    ensures StrictlySorted(Sort(xs, key), key)
  {
    if xs != [] {
      var init, last := xs[..|xs| - 1], xs[|xs| - 1];
      SortStrict(init, key);
      var s := Sort(init, key);
      forall y | y in s ensures key(y) != key(last) {
        SortElement(init, key, y);
        var i :| 0 <= i < |init| && init[i] == y;
        assert xs[i] == y;
      }
      InsertStrict(last, s, key);
    }
  }

  lemma {:induction false} InsertStrict<T>(x: T, xs: seq<T>, key: T -> Key)
    requires StrictlySorted(xs, key)
    requires forall y :: y in xs ==> key(y) != key(x)
    ensures StrictlySorted(Insert(x, xs, key), key)
  {
    if xs != [] && !Less(key(x), key(xs[0])) {
      InsertStrict(x, xs[1..], key);
      assert xs[0] in xs;
      var rest := Insert(x, xs[1..], key);
      forall j | 0 <= j < |rest| ensures Less(key(xs[0]), key(rest[j])) {
        assert rest[j] in rest;
        InsertElement(x, xs[1..], key, rest[j]);
      }
    }
  }

  /** Taking one element out of a strictly sorted sequence. */
  lemma CutSorted<T>(s: seq<T>, k: nat, key: T -> Key)
    requires StrictlySorted(s, key) && k < |s|
    ensures StrictlySorted(s[..k] + s[k + 1..], key)
    ensures forall x :: x in s[..k] + s[k + 1..] <==> x in s && x != s[k]
  {
    var cut := s[..k] + s[k + 1..];
    assert forall i :: 0 <= i < |cut| ==> cut[i] == s[if i < k then i else i + 1];
    forall x ensures x in cut <==> x in s && x != s[k] {
      if x in s && x != s[k] {
        var i :| 0 <= i < |s| && s[i] == x;
        assert cut[if i < k then i else i - 1] == x;
      }
    }
  }

  // ---- Selecting ----

  /** `kept` are the elements of `xs` to be kept, each once and in order; `from` says where they stand. */
  ghost predicate Selected<T>(xs: seq<T>, keep: T -> bool, kept: seq<T>, from: seq<nat>) {
    && |from| == |kept|
    && (forall k :: 0 <= k < |from| ==> from[k] < |xs| && kept[k] == xs[from[k]] && keep(kept[k]))
    && (forall j, k :: 0 <= j < k < |from| ==> from[j] < from[k])
    && (forall i: nat :: i < |xs| && keep(xs[i]) ==> i in from)
  }

  ghost function Shifted(places: seq<nat>): (r: seq<nat>)
    ensures |r| == |places| && forall k :: 0 <= k < |r| ==> r[k] == places[k] + 1
  {
    seq(|places|, k requires 0 <= k < |places| => places[k] + 1)
  }

  lemma SelectedInFront<T>(xs: seq<T>, keep: T -> bool, kept: seq<T>, rest: seq<nat>) returns (from: seq<nat>)
    requires xs != [] && Selected(xs[1..], keep, kept, rest)
    ensures Selected(xs, keep, (if keep(xs[0]) then [xs[0]] else []) + kept, from)
  {
    SelectedShifted(xs, keep, kept, rest);
    if keep(xs[0]) {
      from := [0] + Shifted(rest);
      SelectedFirst(xs, keep, kept, Shifted(rest));
    } else {
      from := Shifted(rest);
      assert [] + kept == kept;
    }
  }

  /** All but the first element, selected. */
  ghost predicate SelectedBehind<T>(xs: seq<T>, keep: T -> bool, kept: seq<T>, from: seq<nat>) {
    && |from| == |kept|
    && (forall k :: 0 <= k < |from| ==> 0 < from[k] < |xs| && kept[k] == xs[from[k]] && keep(kept[k]))
    && (forall j, k :: 0 <= j < k < |from| ==> from[j] < from[k])
    && (forall i: nat :: 0 < i < |xs| && keep(xs[i]) ==> i in from)
  }

  lemma SelectedShifted<T>(xs: seq<T>, keep: T -> bool, kept: seq<T>, rest: seq<nat>)
    requires xs != [] && Selected(xs[1..], keep, kept, rest)
    ensures SelectedBehind(xs, keep, kept, Shifted(rest))
  {
    hide Shifted;
    var from := Shifted(rest);
    forall i: nat | 0 < i < |xs| && keep(xs[i]) ensures i in from {
      assert xs[1..][i - 1] == xs[i];
      var k :| 0 <= k < |rest| && rest[k] == i - 1;
      assert from[k] == i;
    }
  }

  lemma SelectedFirst<T>(xs: seq<T>, keep: T -> bool, kept: seq<T>, from: seq<nat>)
    requires xs != [] && keep(xs[0]) && SelectedBehind(xs, keep, kept, from)
    ensures Selected(xs, keep, [xs[0]] + kept, [0] + from)
  {
    FirstStands(xs, keep, kept, from);
    FirstCovers(xs, keep, kept, from);
    hide SelectedBehind;
  }

  lemma FirstStands<T>(xs: seq<T>, keep: T -> bool, kept: seq<T>, from: seq<nat>)
    requires xs != [] && keep(xs[0]) && SelectedBehind(xs, keep, kept, from)
    ensures var all, both := [0] + from, [xs[0]] + kept;
      && |all| == |both|
      && (forall k :: 0 <= k < |all| ==> all[k] < |xs| && both[k] == xs[all[k]] && keep(both[k]))
      && forall j, k :: 0 <= j < k < |all| ==> all[j] < all[k]
  {
    var all, both := [0] + from, [xs[0]] + kept;
    forall k | 0 <= k < |all| ensures all[k] < |xs| && both[k] == xs[all[k]] && keep(both[k]) {
      if k > 0 { assert all[k] == from[k - 1] && both[k] == kept[k - 1]; }
    }
    forall j, k | 0 <= j < k < |all| ensures all[j] < all[k] {
      assert all[k] == from[k - 1];
      if j > 0 { assert all[j] == from[j - 1]; }
    }
  }

  lemma FirstCovers<T>(xs: seq<T>, keep: T -> bool, kept: seq<T>, from: seq<nat>)
    requires xs != [] && keep(xs[0]) && SelectedBehind(xs, keep, kept, from)
    ensures forall i: nat :: i < |xs| && keep(xs[i]) ==> i in [0] + from
  {
    var all := [0] + from;
    forall i: nat | i < |xs| && keep(xs[i]) ensures i in all {
      if i > 0 {
        assert i in from;
        var k :| 0 <= k < |from| && from[k] == i;
        assert all[k + 1] == i;
      } else {
        assert all[0] == 0;
      }
    }
  }

  /** Element `k` is the only one to be kept. */
  ghost predicate OnlyOne<T>(xs: seq<T>, keep: T -> bool, k: int) {
    0 <= k < |xs| && keep(xs[k]) && forall j :: 0 <= j < |xs| && j != k ==> !keep(xs[j])
  }

  ghost predicate Several<T>(xs: seq<T>, keep: T -> bool) {
    exists j, k :: 0 <= j < k < |xs| && keep(xs[j]) && keep(xs[k])
  }

  /** The number of elements kept says whether there is none, one or several. */
  lemma SelectedOne<T>(xs: seq<T>, keep: T -> bool, kept: seq<T>, from: seq<nat>)
    requires Selected(xs, keep, kept, from)
    ensures |kept| == 1 <==> exists k :: OnlyOne(xs, keep, k)
    ensures forall k :: OnlyOne(xs, keep, k) ==> kept == [xs[k]]
    ensures |kept| > 1 <==> Several(xs, keep)
    ensures kept == [] <==> forall k :: 0 <= k < |xs| ==> !keep(xs[k])
  {
    assert |from| > 1 ==> from[0] < from[1] && keep(kept[0]) && keep(kept[1]);
    forall k | OnlyOne(xs, keep, k) ensures from == [k] {
      assert k in from;
      forall p | 0 <= p < |from| ensures from[p] == k { assert keep(kept[p]); }
    }
    if |kept| == 1 {
      assert keep(kept[0]);
      forall j | 0 <= j < |xs| && keep(xs[j]) ensures j == from[0] { assert j in from; }
      assert OnlyOne(xs, keep, from[0]);
    }
    if j, k :| 0 <= j < k < |xs| && keep(xs[j]) && keep(xs[k]) { assert j in from && k in from; }
    if kept != [] { assert keep(kept[0]); }
  }

  /** A list of numbers below `m`, each of them once, has `m` elements. */
  lemma {:induction false} EachOnce(ks: seq<nat>, m: nat)
    requires forall p :: 0 <= p < |ks| ==> ks[p] < m
    requires forall p, q :: 0 <= p < q < |ks| ==> ks[p] != ks[q]
    requires forall k: nat :: k < m ==> k in ks
    ensures |ks| == m
  {
    assert ks != [] ==> ks[0] < m;
    if m > 0 {
      var last: nat := m - 1;
      assert last in ks;
      var p :| 0 <= p < |ks| && ks[p] == last;
      var others := ks[..p] + ks[p + 1..];
      forall k: nat | k < m - 1 ensures k in others {
        assert k in ks;
        var q :| 0 <= q < |ks| && ks[q] == k;
        assert others[if q < p then q else q - 1] == k;
      }
      EachOnce(others, m - 1);
    }
  }

  lemma SamePlace(from: seq<nat>, p: nat, q: nat)
    requires forall j, k :: 0 <= j < k < |from| ==> from[j] < from[k]
    requires p < |from| && q < |from| && from[p] == from[q]
    ensures p == q
  {
  }
}
