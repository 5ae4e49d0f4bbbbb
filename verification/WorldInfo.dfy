/** World-info entries, the route each takes into the prompt, and the order they are assembled in
    (host-provenance-adapter.js, runtime.js). */
module WorldInfo {
  import opened MessageSpans
  import opened Ordering
  import opened TextPatterns

  /** `worldInfoBefore`, `worldInfoAfter` or `customDepthWI_<depth>_<role>`. */
  datatype RouteId = Before | After | AtDepth(depth: nat, role: nat) | OtherRoute(name: string)

  /** An activated entry. `depth` is None when it is not a non-negative safe integer. */
  datatype WorldEntry = WorldEntry(
    world: string, uid: string, order: int, position: int, depth: Option<nat>, role: int, route: RouteId,
    rawHash: string, preparedHash: string, content: string)

  datatype Route = Route(id: RouteId, position: int, depth: Option<nat>, role: Option<int>)

  const DEFAULT_DEPTH: nat := 4

  function KnownRole(role: int): nat {
    if 0 <= role <= 2 then role else 0
  }

  function NormalizedRoute(position: int, depth: Option<nat>, role: int): Option<Route> {
    if position == 0 then Some(Route(Before, 0, None, None))
    else if position == 1 then Some(Route(After, 1, None, None))
    else if position != 4 then None
    else
      var d := if depth.Some? then depth.value else DEFAULT_DEPTH;
      Some(Route(AtDepth(d, KnownRole(role)), 4, Some(d), Some(KnownRole(role))))
  }

  function RouteOf(e: WorldEntry): Option<Route> {
    NormalizedRoute(e.position, e.depth, e.role)
  }

  predicate ValidIdentity(world: string, uid: string) {
    !Blank(world) && '\0' !in world && uid != "" && '\0' !in uid
  }

  // ---- The order of assembly ----

  datatype Indexed = Indexed(entry: WorldEntry, index: nat)

  function Numbered(entries: seq<WorldEntry>): (r: seq<Indexed>)
    ensures |r| == |entries| && forall k :: 0 <= k < |r| ==> r[k] == Indexed(entries[k], k)
  {
    seq(|entries|, k requires 0 <= k < |entries| => Indexed(entries[k], k))
  }

  /** Higher orders first, ties in the order of the list. */
  function Descending(): Indexed -> Key {
    (i: Indexed) => (-i.entry.order, i.index)
  }

  function Entries(indexed: seq<Indexed>): (r: seq<WorldEntry>)
    ensures |r| == |indexed| && forall k :: 0 <= k < |r| ==> r[k] == indexed[k].entry
  {
    seq(|indexed|, k requires 0 <= k < |indexed| => indexed[k].entry)
  }

  function ByOrder(entries: seq<WorldEntry>): seq<WorldEntry> {
    Entries(Sort(Numbered(entries), Descending()))
  }

  /** The entries of one route, the last one first: each was put in front of those before it. */
  function OnRoute(sorted: seq<WorldEntry>, id: RouteId): (r: seq<WorldEntry>)
    ensures forall e :: e in r <==> e in sorted && RouteOf(e).Some? && RouteOf(e).value.id == id
  {
    if sorted == [] then []
    else
      var init, last := sorted[..|sorted| - 1], sorted[|sorted| - 1];
      assert sorted == init + [last];
      (if RouteOf(last).Some? && RouteOf(last).value.id == id then [last] else []) + OnRoute(init, id)
  }

  /** Sorting moves every entry to exactly one place. */
  lemma SortedPlaces(entries: seq<WorldEntry>)
    ensures |ByOrder(entries)| == |entries|
    ensures forall e :: e in ByOrder(entries) <==> e in entries
    ensures multiset(ByOrder(entries)) == multiset(entries)
  {
    hide Sort;
    var numbered := Numbered(entries);
    var sorted := Sort(numbered, Descending());
    EntriesMultiset(sorted, numbered);
    assert Entries(numbered) == entries;
    assert |multiset(ByOrder(entries))| == |multiset(entries)|;
    forall e ensures e in ByOrder(entries) <==> e in entries {
      assert e in ByOrder(entries) <==> e in multiset(ByOrder(entries));
      assert e in entries <==> e in multiset(entries);
    }
  }

  lemma MultisetWithout<T>(b: seq<T>, k: nat)
    requires k < |b|
    ensures multiset(b[..k] + b[k + 1..]) == multiset(b) - multiset{b[k]}
    ensures multiset(b) == multiset(b[..k] + b[k + 1..]) + multiset{b[k]}
  {
    assert b == b[..k] + [b[k]] + b[k + 1..];
  }

  lemma WithoutOne(b: seq<Indexed>, k: nat)
    requires k < |b|
    ensures multiset(b[..k] + b[k + 1..]) == multiset(b) - multiset{b[k]}
    ensures multiset(Entries(b)) == multiset(Entries(b[..k] + b[k + 1..])) + multiset{b[k].entry}
  {
    MultisetWithout(b, k);
    MultisetWithout(Entries(b), k);
    assert Entries(b[..k] + b[k + 1..]) == Entries(b)[..k] + Entries(b)[k + 1..];
  }

  lemma {:induction false} EntriesMultiset(a: seq<Indexed>, b: seq<Indexed>)
    requires multiset(a) == multiset(b)
    ensures multiset(Entries(a)) == multiset(Entries(b))
    decreases |a|
  {
    hide Entries;
    assert |a| == |multiset(a)| == |multiset(b)| == |b|;
    if a != [] {
      assert a[0] in multiset(b);
      var k :| 0 <= k < |b| && b[k] == a[0];
      WithoutOne(a, 0);
      WithoutOne(b, k);
      EntriesMultiset(a[..0] + a[1..], b[..k] + b[k + 1..]);
    } else {
      assert a == b;
    }
  }

  predicate TakesRoute(e: WorldEntry, id: RouteId) {
    RouteOf(e).Some? && RouteOf(e).value.id == id
  }

  lemma OnRouteStep(sorted: seq<WorldEntry>, id: RouteId)
    requires sorted != []
    ensures var init, last := sorted[..|sorted| - 1], sorted[|sorted| - 1];
      OnRoute(sorted, id) == if TakesRoute(last, id) then [last] + OnRoute(init, id) else OnRoute(init, id)
  {
  }

  ghost predicate Falls(sorted: seq<WorldEntry>) {
    forall i, l :: 0 <= i < l < |sorted| ==> sorted[i].order >= sorted[l].order
  }

  ghost predicate Ascends(route: seq<WorldEntry>) {
    forall j, k :: 0 <= j < k < |route| ==> route[j].order <= route[k].order
  }

  ghost predicate Leads(e: WorldEntry, route: seq<WorldEntry>) {
    forall k :: 0 <= k < |route| ==> e.order <= route[k].order
  }

  /** Along a route the orders never fall. */
  lemma {:induction false} RouteAscends(sorted: seq<WorldEntry>, id: RouteId)
    requires Falls(sorted)
    ensures Ascends(OnRoute(sorted, id))
  {
    if sorted != [] {
      var init, last := sorted[..|sorted| - 1], sorted[|sorted| - 1];
      OnRouteStep(sorted, id);
      InitFalls(sorted);
      LastIsLeast(sorted, id);
      hide OnRoute, TakesRoute, RouteOf, Falls, Ascends, Leads;
      RouteAscends(init, id);
      InFront(last, OnRoute(init, id));
    }
  }

  lemma InitFalls(sorted: seq<WorldEntry>)
    requires Falls(sorted) && sorted != []
    ensures Falls(sorted[..|sorted| - 1])
  {
  }

  lemma LastIsLeast(sorted: seq<WorldEntry>, id: RouteId)
    requires Falls(sorted) && sorted != []
    ensures Leads(sorted[|sorted| - 1], OnRoute(sorted[..|sorted| - 1], id))
  {
    hide OnRoute, RouteOf;
    var init := sorted[..|sorted| - 1];
    forall k | 0 <= k < |OnRoute(init, id)| ensures sorted[|sorted| - 1].order <= OnRoute(init, id)[k].order {
      assert OnRoute(init, id)[k] in init;
    }
  }

  lemma InFront(e: WorldEntry, route: seq<WorldEntry>)
    requires Leads(e, route)
    ensures Ascends(route) ==> Ascends([e] + route)
  {
  }

  lemma SortedDescends(entries: seq<WorldEntry>)
    ensures Falls(ByOrder(entries))
  {
    hide Sort;
    SortSorted(Numbered(entries), Descending());
  }

  /** `from` says where the entries stood before: higher orders come first, equal ones as they stood. */
  ghost predicate Assembled(entries: seq<WorldEntry>, sorted: seq<WorldEntry>, from: seq<nat>) {
    && |sorted| == |from| == |entries|
    && (forall k :: 0 <= k < |from| ==> from[k] < |entries| && sorted[k] == entries[from[k]])
    && (forall j, k :: 0 <= j < k < |from| ==>
          sorted[j].order > sorted[k].order || (sorted[j].order == sorted[k].order && from[j] < from[k]))
  }

  lemma AssemblyOrder(entries: seq<WorldEntry>) returns (from: seq<nat>)
    ensures Assembled(entries, ByOrder(entries), from)
  {
    hide Sort;
    var numbered := Numbered(entries);
    var sorted := Sort(numbered, Descending());
    SortStrict(numbered, Descending());
    assert |multiset(sorted)| == |multiset(numbered)|;
    from := seq(|sorted|, k requires 0 <= k < |sorted| => sorted[k].index);
    forall k | 0 <= k < |sorted| ensures sorted[k].index < |entries| && sorted[k].entry == entries[sorted[k].index] {
      SortElement(numbered, Descending(), sorted[k]);
    }
  }
}
