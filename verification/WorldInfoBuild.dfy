/** Building provenance components from activated entries, and the budget plan's grouping of the same entries
    (host-provenance-adapter.js, buildWorldInfoComponentProvenance; runtime.js, buildHostAssemblySourceCandidates). */
module WorldInfoBuild {
  import opened MessageSpans
  import opened PromptEntries
  import opened Ordering
  import opened TextPatterns
  import opened WorldInfo
  import opened WorldInfoProvenance

  // ---- Which entries are accepted ----

  ghost predicate SameIdentity(a: WorldEntry, b: WorldEntry) {
    a.world == b.world && a.uid == b.uid
  }

  ghost predicate ValidEntry(e: WorldEntry) {
    ValidIdentity(e.world, e.uid) && ValidHash(e.rawHash) && ValidHash(e.preparedHash) && TakesRoute(e, e.route)
  }

  /** The hash is 64 lower-case hexadecimal digits. */
  ghost predicate Hexadecimal(s: string) {
    |s| == 64 && forall k :: 0 <= k < |s| ==> '0' <= s[k] <= '9' || 'a' <= s[k] <= 'f'
  }

  /** Where an entry with this position, depth and role belongs: only positions 0, 1 and 4 belong anywhere. */
  ghost predicate Belongs(e: WorldEntry) {
    match e.route
    case Before => e.position == 0
    case After => e.position == 1
    case AtDepth(depth, role) =>
      && e.position == 4
      && (e.depth == Some(depth) || (e.depth.None? && depth == 4))
      && (if e.role == 1 || e.role == 2 then role == e.role else role == 0)
    case OtherRoute(_) => false
  }

  /** Valid entries are named, hashed, and on the route their position, depth and role lead to. */
  lemma ValidEntryIff(e: WorldEntry)
    ensures ValidEntry(e) <==>
      && (exists k :: 0 <= k < |e.world| && !IsSpace(e.world[k])) && (forall k :: 0 <= k < |e.world| ==> e.world[k] != '\0')
      && e.uid != "" && (forall k :: 0 <= k < |e.uid| ==> e.uid[k] != '\0')
      && Hexadecimal(e.rawHash) && Hexadecimal(e.preparedHash) && Belongs(e)
  {
    hide IsSpace;
    RouteIff(e);
    hide TakesRoute, Belongs;
  }

  lemma RouteIff(e: WorldEntry)
    ensures TakesRoute(e, e.route) <==> Belongs(e)
  {
  }

  ghost predicate DistinctIdentities(entries: seq<WorldEntry>) {
    forall j, k :: 0 <= j < k < |entries| ==> !SameIdentity(entries[j], entries[k])
  }

  ghost predicate Acceptable(entries: seq<WorldEntry>) {
    (forall k :: 0 <= k < |entries| ==> ValidEntry(entries[k])) && DistinctIdentities(entries)
  }

  lemma SameIdentitySameEntry(entries: seq<WorldEntry>, a: WorldEntry, b: WorldEntry)
    requires DistinctIdentities(entries) && a in entries && b in entries && SameIdentity(a, b)
    ensures a == b
  {
    var j :| 0 <= j < |entries| && entries[j] == a;
    var k :| 0 <= k < |entries| && entries[k] == b;
  }

  /** Sorting neither makes nor loses duplicates. */
  lemma SortedIdentities(entries: seq<WorldEntry>)
    ensures DistinctIdentities(entries) <==> DistinctIdentities(ByOrder(entries))
  {
    SortedPlaces(entries);
    if DistinctIdentities(entries) { PermutedIdentities(entries, ByOrder(entries)); }
    if DistinctIdentities(ByOrder(entries)) { PermutedIdentities(ByOrder(entries), entries); }
  }

  lemma {:induction false} OnceInMultiset(entries: seq<WorldEntry>, e: WorldEntry)
    requires DistinctIdentities(entries)
    ensures multiset(entries)[e] <= 1
  {
    if entries != [] {
      var init, last := entries[..|entries| - 1], entries[|entries| - 1];
      assert entries == init + [last];
      OnceInMultiset(init, e);
      if e == last {
        assert forall k :: 0 <= k < |init| ==> !SameIdentity(entries[k], entries[|entries| - 1]);
        assert e !in init;
        assert e !in multiset(init);
      }
    }
  }

  lemma PermutedIdentities(a: seq<WorldEntry>, b: seq<WorldEntry>)
    requires DistinctIdentities(a) && multiset(a) == multiset(b)
    ensures DistinctIdentities(b)
  {
    forall j, k | 0 <= j < k < |b| ensures !SameIdentity(b[j], b[k]) {
      assert b[j] in multiset(b) && b[k] in multiset(b);
      if SameIdentity(b[j], b[k]) {
        SameIdentitySameEntry(a, b[j], b[k]);
        OnceInMultiset(a, b[j]);
        TwiceInMultiset(b, j, k);
      }
    }
  }

  lemma TwiceInMultiset<T>(b: seq<T>, j: nat, k: nat)
    requires j < k < |b| && b[j] == b[k]
    ensures multiset(b)[b[j]] >= 2
  {
    assert b == b[..j] + [b[j]] + b[j + 1..k] + [b[k]] + b[k + 1..];
  }

  // ---- Components ----

  ghost function Selectors(es: seq<WorldEntry>, indexed: bool): (r: seq<Selector>)
    requires forall k :: 0 <= k < |es| ==> RouteOf(es[k]).Some?
    ensures |r| == |es| && forall k :: 0 <= k < |r| ==> r[k] == SelectorOf(es[k], if indexed then k else -1)
  {
    seq(|es|, k requires 0 <= k < |es| => SelectorOf(es[k], if indexed then k else -1))
  }

  lemma OnRouteRouted(sorted: seq<WorldEntry>, id: RouteId)
    ensures forall k :: 0 <= k < |OnRoute(sorted, id)| ==> TakesRoute(OnRoute(sorted, id)[k], id) && OnRoute(sorted, id)[k] in sorted
  {
    var es := OnRoute(sorted, id);
    forall k | 0 <= k < |es| ensures TakesRoute(es[k], id) && es[k] in sorted {
      assert es[k] in es;
    }
  }

  /** The component of one route: its entries in order of assembly, numbered, and sealed. */
  ghost function ComponentFor(sorted: seq<WorldEntry>, id: RouteId): Component {
    OnRouteRouted(sorted, id);
    var selectors := Selectors(OnRoute(sorted, id), true);
    Component(id, selectors, Seal(id, selectors))
  }

  /** The selectors gathered so far, each route's last entry first. */
  ghost predicate Gathered(sorted: seq<WorldEntry>, groups: map<RouteId, seq<Selector>>, routes: seq<RouteId>) {
    && (forall id :: (if id in groups then groups[id] else []) == GatheredOn(sorted, id))
    && (forall id :: id in routes <==> id in groups)
    && (forall j, k :: 0 <= j < k < |routes| ==> routes[j] != routes[k])
    && (forall id :: id in groups ==> groups[id] != [])
  }

  ghost function GatheredOn(sorted: seq<WorldEntry>, id: RouteId): seq<Selector> {
    OnRouteRouted(sorted, id);
    Selectors(OnRoute(sorted, id), false)
  }

  lemma GatheredMore(sorted: seq<WorldEntry>, e: WorldEntry, id: RouteId)
    requires RouteOf(e).Some?
    ensures GatheredOn(sorted + [e], id)
         == if TakesRoute(e, id) then [SelectorOf(e, -1)] + GatheredOn(sorted, id) else GatheredOn(sorted, id)
  {
    hide OnRoute, SelectorOf, RouteOf;
    var more := sorted + [e];
    OnRouteStep(more, id);
    assert more[..|more| - 1] == sorted;
    OnRouteRouted(sorted, id);
    OnRouteRouted(more, id);
    if TakesRoute(e, id) { SelectorsMore(e, OnRoute(sorted, id)); }
  }

  lemma SelectorsMore(e: WorldEntry, es: seq<WorldEntry>)
    requires RouteOf(e).Some? && forall k :: 0 <= k < |es| ==> RouteOf(es[k]).Some?
    ensures forall k :: 0 <= k < |[e] + es| ==> RouteOf(([e] + es)[k]).Some?
    ensures Selectors([e] + es, false) == [SelectorOf(e, -1)] + Selectors(es, false)
  {
    hide SelectorOf, RouteOf;
  }

  lemma MoreGathered(
      sorted: seq<WorldEntry>, groups: map<RouteId, seq<Selector>>, routes: seq<RouteId>, e: WorldEntry)
    requires Gathered(sorted, groups, routes) && RouteOf(e).Some?
    ensures var id := RouteOf(e).value.id; var own := if id in groups then groups[id] else [];
      Gathered(sorted + [e], groups[id := [SelectorOf(e, -1)] + own], if id in groups then routes else routes + [id])
  {
    hide SelectorOf, GatheredOn;
    var here := RouteOf(e).value.id;
    var own := if here in groups then groups[here] else [];
    var more := groups[here := [SelectorOf(e, -1)] + own];
    forall id ensures (if id in more then more[id] else []) == GatheredOn(sorted + [e], id) {
      GatheredMore(sorted, e, id);
    }
  }

  /** What is wrong with the entries when they are refused. */
  ghost predicate Explained(entries: seq<WorldEntry>, error: ProvenanceError) {
    match error
    case SelectorInvalid => exists e :: e in entries && !(ValidIdentity(e.world, e.uid) && ValidHash(e.rawHash) && ValidHash(e.preparedHash))
    case SelectorDuplicate => !DistinctIdentities(entries)
    case RouteMismatch => exists e :: e in entries && !TakesRoute(e, e.route)
    case _ => false
  }

  method Gather(sorted: seq<WorldEntry>)
    returns (r: Result<(map<RouteId, seq<Selector>>, seq<RouteId>), ProvenanceError>)
    ensures r.Success? <==> Acceptable(sorted)
    ensures r.Success? ==> Gathered(sorted, r.value.0, r.value.1)
    ensures r.Failure? ==> Explained(sorted, r.error)
  {
    hide Gathered, ValidIdentity, ValidHash, SelectorOf;
    var groups: map<RouteId, seq<Selector>> := map[];
    var routes: seq<RouteId> := [];
    var seen: set<(string, string)> := {};
    NothingGathered(sorted);
    for n := 0 to |sorted|
      invariant Gathered(sorted[..n], groups, routes)
      invariant forall k :: 0 <= k < n ==> ValidEntry(sorted[k])
      invariant forall j, k :: 0 <= j < k < n ==> !SameIdentity(sorted[j], sorted[k])
      invariant forall k :: 0 <= k < n ==> (sorted[k].world, sorted[k].uid) in seen
      invariant forall x :: x in seen ==> exists k :: 0 <= k < n && (sorted[k].world, sorted[k].uid) == x
    {
      var e := sorted[n];
      if !ValidIdentity(e.world, e.uid) { return Failure(SelectorInvalid); }
      if (e.world, e.uid) in seen {
        var k :| 0 <= k < n && (sorted[k].world, sorted[k].uid) == (e.world, e.uid);
        assert SameIdentity(sorted[k], sorted[n]);
        return Failure(SelectorDuplicate);
      }
      seen := seen + {(e.world, e.uid)};
      if !ValidHash(e.rawHash) || !ValidHash(e.preparedHash) { return Failure(SelectorInvalid); }
      var route := RouteOf(e);
      if route.None? || e.route != route.value.id { return Failure(RouteMismatch); }
      MoreGathered(sorted[..n], groups, routes, e);
      assert sorted[..n + 1] == sorted[..n] + [e];
      var id := route.value.id;
      if id in groups {
        groups := groups[id := [SelectorOf(e, -1)] + groups[id]];
      } else {
        routes := routes + [id];
        assert [SelectorOf(e, -1)] + [] == [SelectorOf(e, -1)];
        groups := groups[id := [SelectorOf(e, -1)]];
      }
    }
    assert sorted[..|sorted|] == sorted;
    r := Success((groups, routes));
  }

  lemma NothingGathered(sorted: seq<WorldEntry>)
    ensures Gathered(sorted[..0], map[], [])
  {
    assert sorted[..0] == [];
    forall id ensures GatheredOn([], id) == [] {
      assert OnRoute([], id) == [];
    }
  }

  function Renumbered(selectors: seq<Selector>): (r: seq<Selector>)
    ensures |r| == |selectors| && forall k :: 0 <= k < |r| ==> r[k] == selectors[k].(assemblyIndex := k)
  {
    seq(|selectors|, k requires 0 <= k < |selectors| => selectors[k].(assemblyIndex := k))
  }

  lemma RenumberedIsIndexed(es: seq<WorldEntry>)
    requires forall k :: 0 <= k < |es| ==> RouteOf(es[k]).Some?
    ensures Renumbered(Selectors(es, false)) == Selectors(es, true)
  {
  }

  ghost predicate AreComponents(sorted: seq<WorldEntry>, components: seq<Component>) {
    && (forall k :: 0 <= k < |components| ==>
          components[k] == ComponentFor(sorted, components[k].id) && components[k].selectors != [])
    && (forall e :: e in sorted && RouteOf(e).Some? ==> exists k :: 0 <= k < |components| && components[k].id == RouteOf(e).value.id)
    && DistinctRoutes(components)
  }

  lemma SealedIsComponent(sorted: seq<WorldEntry>, groups: map<RouteId, seq<Selector>>, routes: seq<RouteId>, id: RouteId)
    requires Gathered(sorted, groups, routes) && id in routes
    ensures id in groups
    ensures var selectors := Renumbered(groups[id]);
      Component(id, selectors, Seal(id, selectors)) == ComponentFor(sorted, id) && selectors != []
  {
    hide OnRoute, SelectorOf;
    OnRouteRouted(sorted, id);
    RenumberedIsIndexed(OnRoute(sorted, id));
  }

  method SealAll(groups: map<RouteId, seq<Selector>>, routes: seq<RouteId>, ghost sorted: seq<WorldEntry>) returns (components: seq<Component>)
    requires Gathered(sorted, groups, routes)
    ensures AreComponents(sorted, components)
  {
    hide OnRoute, SelectorOf, ComponentFor, Renumbered;
    assert forall j, k :: 0 <= j < k < |routes| ==> routes[j] != routes[k];
    components := [];
    for k := 0 to |routes|
      invariant |components| == k
      invariant forall j :: 0 <= j < k ==> components[j].id == routes[j]
      invariant forall j :: 0 <= j < k ==> components[j] == ComponentFor(sorted, routes[j]) && components[j].selectors != []
    {
      var id := routes[k];
      SealedIsComponent(sorted, groups, routes, id);
      var selectors := Renumbered(groups[id]);
      components := components + [Component(id, selectors, Seal(id, selectors))];
    }
    hide Gathered;
    forall e | e in sorted && RouteOf(e).Some? ensures exists k :: 0 <= k < |components| && components[k].id == RouteOf(e).value.id {
      RouteUsed(sorted, groups, routes, e);
      var k :| 0 <= k < |routes| && routes[k] == RouteOf(e).value.id;
      assert components[k].id == routes[k];
    }
  }

  lemma RouteUsed(sorted: seq<WorldEntry>, groups: map<RouteId, seq<Selector>>, routes: seq<RouteId>, e: WorldEntry)
    requires Gathered(sorted, groups, routes) && e in sorted && RouteOf(e).Some?
    ensures RouteOf(e).value.id in routes
  {
    var id := RouteOf(e).value.id;
    assert e in OnRoute(sorted, id);
    OnRouteRouted(sorted, id);
    assert |GatheredOn(sorted, id)| == |OnRoute(sorted, id)| > 0;
  }

  // ---- Built components are valid ----

  /** A selector made from a valid entry passes the validator's checks. */
  lemma SelectorIsValid(e: WorldEntry, id: RouteId, index: int)
    requires ValidEntry(e) && TakesRoute(e, id)
    ensures ValidSelector(SelectorOf(e, index), id, index) && !id.OtherRoute?
  {
  }

  /** An entry without a text, known only by where it comes from. */
  ghost function EntryFor(s: Selector): WorldEntry {
    WorldEntry(s.world, s.uid, 0, s.position, s.depth, if s.role.Some? then s.role.value else 0, s.route, s.rawHash, s.preparedHash, "")
  }

  /** The validator takes exactly the selectors that a valid entry on this route is turned into. */
  lemma ValidSelectorIff(s: Selector, id: RouteId, index: int)
    ensures ValidSelector(s, id, index) <==> exists e :: ValidEntry(e) && e.route == id && s == SelectorOf(e, index)
  {
    hide ValidIdentity, ValidHash;
    if ValidSelector(s, id, index) {
      var e := EntryFor(s);
      assert ValidEntry(e) && e.route == id && s == SelectorOf(e, index);
    }
  }

  lemma LastIsNew(sorted: seq<WorldEntry>, e: WorldEntry)
    requires DistinctIdentities(sorted) && sorted != [] && e in sorted[..|sorted| - 1]
    ensures !SameIdentity(e, sorted[|sorted| - 1]) && !SameIdentity(sorted[|sorted| - 1], e)
  {
  }

  lemma InitDistinct(sorted: seq<WorldEntry>)
    requires DistinctIdentities(sorted) && sorted != []
    ensures DistinctIdentities(sorted[..|sorted| - 1])
  {
  }

  /** Different places on a route hold different entries. */
  lemma {:induction false} OnRouteDistinct(sorted: seq<WorldEntry>, id: RouteId, j: nat, k: nat)
    requires DistinctIdentities(sorted) && j < k < |OnRoute(sorted, id)|
    ensures !SameIdentity(OnRoute(sorted, id)[j], OnRoute(sorted, id)[k])
  {
    assert sorted != [];
    hide OnRoute, TakesRoute, RouteOf, DistinctIdentities, SameIdentity;
    var init, last := sorted[..|sorted| - 1], sorted[|sorted| - 1];
    var route := OnRoute(init, id);
    OnRouteStep(sorted, id);
    InitDistinct(sorted);
    if !TakesRoute(last, id) {
      OnRouteDistinct(init, id, j, k);
    } else if j > 0 {
      assert OnRoute(sorted, id)[j] == route[j - 1] && OnRoute(sorted, id)[k] == route[k - 1];
      OnRouteDistinct(init, id, j - 1, k - 1);
    } else {
      assert OnRoute(sorted, id)[j] == last && OnRoute(sorted, id)[k] == route[k - 1];
      assert route[k - 1] in route;
      LastIsNew(sorted, route[k - 1]);
    }
  }

  lemma SelectorFrom(sorted: seq<WorldEntry>, id: RouteId, k: nat)
    requires k < |OnRoute(sorted, id)|
    ensures RouteOf(OnRoute(sorted, id)[k]).Some?
    ensures k < |ComponentFor(sorted, id).selectors|
    ensures ComponentFor(sorted, id).selectors[k] == SelectorOf(OnRoute(sorted, id)[k], k)
    ensures OnRoute(sorted, id)[k] in sorted && TakesRoute(OnRoute(sorted, id)[k], id)
  {
    OnRouteRouted(sorted, id);
  }

  lemma ComponentIsValid(sorted: seq<WorldEntry>, id: RouteId)
    requires Acceptable(sorted) && ComponentFor(sorted, id).selectors != []
    ensures ValidComponent(ComponentFor(sorted, id))
  {
    hide OnRoute, SelectorOf, ValidSelector, ValidEntry;
    var es, c := OnRoute(sorted, id), ComponentFor(sorted, id);
    OnRouteRouted(sorted, id);
    forall k | 0 <= k < |c.selectors| ensures ValidSelector(c.selectors[k], id, k) && !id.OtherRoute? {
      SelectorFrom(sorted, id, k);
      var i :| 0 <= i < |sorted| && sorted[i] == es[k];
      SelectorIsValid(es[k], id, k);
    }
    assert ValidSelector(c.selectors[0], id, 0);
    forall j, k | 0 <= j < k < |c.selectors| ensures !SameSource(c.selectors[j], c.selectors[k]) {
      SelectorFrom(sorted, id, j);
      SelectorFrom(sorted, id, k);
      OnRouteDistinct(sorted, id, j, k);
      SelectorSource(es[j], j);
      SelectorSource(es[k], k);
    }
  }

  lemma SelectorSource(e: WorldEntry, index: int)
    requires RouteOf(e).Some?
    ensures SelectorOf(e, index).world == e.world && SelectorOf(e, index).uid == e.uid
  {
  }

  /** Selectors of different routes come from different entries. */
  lemma RoutesApart(sorted: seq<WorldEntry>, id: RouteId, other: RouteId, j: nat, k: nat)
    requires DistinctIdentities(sorted) && id != other
    requires j < |ComponentFor(sorted, id).selectors| && k < |ComponentFor(sorted, other).selectors|
    ensures !SameSource(ComponentFor(sorted, id).selectors[j], ComponentFor(sorted, other).selectors[k])
  {
    hide OnRoute, SelectorOf;
    OnRouteRouted(sorted, id);
    OnRouteRouted(sorted, other);
    SelectorFrom(sorted, id, j);
    SelectorFrom(sorted, other, k);
    var e, f := OnRoute(sorted, id)[j], OnRoute(sorted, other)[k];
    SelectorSource(e, j);
    SelectorSource(f, k);
    if SameIdentity(e, f) { SameIdentitySameEntry(sorted, e, f); }
  }

  /** Every selector of the list belongs to one of the components. */
  lemma {:induction false} SelectorOwner(components: seq<Component>, k: nat) returns (c: nat, i: nat)
    requires k < |AllSelectors(components)|
    ensures c < |components| && i < |components[c].selectors| && components[c].selectors[i] == AllSelectors(components)[k]
  {
    var init := components[..|components| - 1];
    if k < |AllSelectors(init)| {
      c, i := SelectorOwner(init, k);
    } else {
      c, i := |components| - 1, k - |AllSelectors(init)|;
    }
  }

  lemma {:induction false} AllDistinct(sorted: seq<WorldEntry>, components: seq<Component>)
    requires Acceptable(sorted) && DistinctRoutes(components)
    requires forall k :: 0 <= k < |components| ==> components[k] == ComponentFor(sorted, components[k].id) && components[k].selectors != []
    ensures DistinctSources(AllSelectors(components))
  {
    hide ComponentFor, Acceptable;
    if components != [] {
      var n := |components| - 1;
      var init := components[..n];
      AllDistinct(sorted, init);
      ComponentIsValid(sorted, components[n].id);
      var before, own, all := AllSelectors(init), components[n].selectors, AllSelectors(components);
      forall j, k | 0 <= j < k < |all| ensures !SameSource(all[j], all[k]) {
        if k < |before| {
          assert !SameSource(before[j], before[k]);
        } else if j >= |before| {
          assert !SameSource(own[j - |before|], own[k - |before|]);
        } else {
          var c, i := SelectorOwner(init, j);
          AcceptableDistinct(sorted);
          RoutesApart(sorted, components[c].id, components[n].id, i, k - |before|);
        }
      }
    }
  }

  lemma AcceptableDistinct(sorted: seq<WorldEntry>)
    requires Acceptable(sorted)
    ensures DistinctIdentities(sorted)
  {
  }

  /** What is built from accepted entries always passes its own validator. */
  lemma BuiltIsNormal(sorted: seq<WorldEntry>, components: seq<Component>)
    requires Acceptable(sorted) && AreComponents(sorted, components)
    ensures Normal(components)
  {
    hide ComponentFor, Acceptable, ValidComponent;
    forall k | 0 <= k < |components| ensures ValidComponent(components[k]) {
      ComponentIsValid(sorted, components[k].id);
    }
    AllDistinct(sorted, components);
  }

  // ---- Building ----

  /** A stand-in for the locale order of route identifiers. */
  function ByName(rank: RouteId -> int): Component -> Key {
    (c: Component) => (rank(c.id), 0)
  }

  lemma SortedComponents(sorted: seq<WorldEntry>, components: seq<Component>, rank: RouteId -> int)
    requires AreComponents(sorted, components)
    ensures AreComponents(sorted, Sort(components, ByName(rank)))
  {
    hide ComponentFor, Sort;
    var r := Sort(components, ByName(rank));
    forall k | 0 <= k < |r| ensures r[k] == ComponentFor(sorted, r[k].id) && r[k].selectors != [] {
      SortElement(components, ByName(rank), r[k]);
    }
    forall e | e in sorted && RouteOf(e).Some? ensures exists k :: 0 <= k < |r| && r[k].id == RouteOf(e).value.id {
      var k :| 0 <= k < |components| && components[k].id == RouteOf(e).value.id;
      SortElement(components, ByName(rank), components[k]);
      var l :| 0 <= l < |r| && r[l] == components[k];
    }
    SortedRoutes(components, r);
  }

  lemma NamedInOrder(components: seq<Component>, rank: RouteId -> int)
    ensures var r := Sort(components, ByName(rank)); forall j, k :: 0 <= j < k < |r| ==> rank(r[j].id) <= rank(r[k].id)
  {
    hide Sort;
    SortSorted(components, ByName(rank));
  }

  lemma {:induction false} ComponentOnce(components: seq<Component>, c: Component)
    requires DistinctRoutes(components)
    ensures multiset(components)[c] <= 1
  {
    if components != [] {
      var init, last := components[..|components| - 1], components[|components| - 1];
      assert components == init + [last];
      ComponentOnce(init, c);
      if c == last {
        assert forall k :: 0 <= k < |init| ==> components[k].id != components[|components| - 1].id;
        assert c !in init;
        assert c !in multiset(init);
      }
    }
  }

  lemma SortedRoutes(components: seq<Component>, r: seq<Component>)
    requires DistinctRoutes(components) && multiset(components) == multiset(r)
    ensures DistinctRoutes(r)
  {
    forall j, k | 0 <= j < k < |r| ensures r[j].id != r[k].id {
      assert r[j] in multiset(r) && r[k] in multiset(r);
      if r[j].id == r[k].id {
        var a :| 0 <= a < |components| && components[a] == r[j];
        var b :| 0 <= b < |components| && components[b] == r[k];
        assert r[j] == r[k];
        ComponentOnce(components, r[j]);
        TwiceInMultiset(r, j, k);
      }
    }
  }

  lemma AcceptableSorted(entries: seq<WorldEntry>)
    ensures Acceptable(entries) <==> Acceptable(ByOrder(entries))
  {
    hide ByOrder, ValidEntry;
    SortedPlaces(entries);
    SortedIdentities(entries);
    forall k | 0 <= k < |entries| ensures entries[k] in ByOrder(entries) { assert entries[k] in entries; }
    var sorted := ByOrder(entries);
    forall k | 0 <= k < |sorted| ensures sorted[k] in entries { assert sorted[k] in sorted; }
    if Acceptable(entries) {
      forall k | 0 <= k < |sorted| ensures ValidEntry(sorted[k]) {
        var i :| 0 <= i < |entries| && entries[i] == sorted[k];
      }
    }
    if Acceptable(sorted) {
      forall k | 0 <= k < |entries| ensures ValidEntry(entries[k]) {
        var i :| 0 <= i < |sorted| && sorted[i] == entries[k];
      }
    }
  }

  lemma ExplainedSorted(entries: seq<WorldEntry>, error: ProvenanceError)
    requires Explained(ByOrder(entries), error)
    ensures Explained(entries, error)
  {
    hide ByOrder, ValidIdentity, ValidHash, TakesRoute;
    SortedPlaces(entries);
    SortedIdentities(entries);
  }

  method BuildProvenance(entries: seq<WorldEntry>, rank: RouteId -> int) returns (r: Result<seq<Component>, ProvenanceError>)
    ensures r.Success? <==> Acceptable(entries)
    ensures r.Success? ==> AreComponents(ByOrder(entries), r.value) && Normal(r.value)
    ensures r.Failure? ==> Explained(entries, r.error)
    ensures r.Success? ==> forall j, k :: 0 <= j < k < |r.value| ==> rank(r.value[j].id) <= rank(r.value[k].id)
  {
    hide Acceptable, AreComponents, Normal, Gathered, ByOrder;
    AcceptableSorted(entries);
    var sorted := ByOrder(entries);
    var gathered := Gather(sorted);
    if gathered.Failure? {
      ExplainedSorted(entries, gathered.error);
      return Failure(gathered.error);
    }
    var components := SealAll(gathered.value.0, gathered.value.1, sorted);
    SortedComponents(sorted, components, rank);
    var named := Sort(components, ByName(rank));
    NamedInOrder(components, rank);
    BuiltIsNormal(sorted, named);
    var normalized := Normalize(named);
    r := match normalized case Success(_) => Success(named) case Failure(error) => Failure(error);
  }

  /** Selector `l` of component `d` names the world and uid of the entry. */
  ghost predicate Selects(components: seq<Component>, d: int, l: int, e: WorldEntry) {
    && 0 <= d < |components| && 0 <= l < |components[d].selectors|
    && components[d].selectors[l].world == e.world && components[d].selectors[l].uid == e.uid
  }

  /** The selector's fields, from those of the entry. */
  ghost predicate Describes(s: Selector, e: WorldEntry, index: int) {
    && s.world == e.world && s.uid == e.uid && s.sourceId == "worldbook:" + e.world && s.unitId == e.uid && s.includeParts
    && s.assemblyIndex == index && s.rawHash == e.rawHash && s.preparedHash == e.preparedHash
    && s.position == e.position && s.route == e.route
    && (e.position == 0 ==> s.route == Before && s.depth.None? && s.role.None?)
    && (e.position == 1 ==> s.route == After && s.depth.None? && s.role.None?)
    && (e.position in {0, 1, 4})
    && (e.position == 4 ==>
          && s.depth == Some(if e.depth.Some? then e.depth.value else 4)
          && s.role == Some(if e.role in {0, 1, 2} then e.role else 0)
          && s.route.AtDepth? && s.depth == Some(s.route.depth) && s.role == Some(s.route.role))
  }

  lemma SelectorDescribes(e: WorldEntry, index: int)
    requires ValidEntry(e)
    ensures RouteOf(e).Some? && Describes(SelectorOf(e, index), e, index)
  {
    hide ValidIdentity, ValidHash;
  }

  /** Every entry is selected exactly once, at the place its index says. */
  lemma EntrySelectedOnce(entries: seq<WorldEntry>, components: seq<Component>, e: WorldEntry) returns (c: nat, k: nat)
    requires Acceptable(entries) && AreComponents(ByOrder(entries), components) && e in entries
    ensures c < |components| && k < |components[c].selectors|
    ensures RouteOf(e).Some? && components[c].selectors[k] == SelectorOf(e, k) && components[c].selectors[k].assemblyIndex == k
    ensures Describes(components[c].selectors[k], e, k)
    ensures forall d, l :: Selects(components, d, l, e) ==> d == c && l == k
  {
    hide Describes, ByOrder, OnRoute, ValidIdentity, ValidHash;
    var sorted := ByOrder(entries);
    SortedPlaces(entries);
    AcceptableSorted(entries);
    var i :| 0 <= i < |entries| && entries[i] == e;
    assert ValidEntry(e);
    SelectorDescribes(e, 0);
    var id := RouteOf(e).value.id;
    c :| 0 <= c < |components| && components[c].id == id;
    OnRouteHas(sorted, id, e);
    k :| 0 <= k < |OnRoute(sorted, id)| && OnRoute(sorted, id)[k] == e;
    SelectorFrom(sorted, id, k);
    SelectorDescribes(e, k);
    forall d, l | Selects(components, d, l, e) ensures d == c && l == k {
      SelectedElsewhere(sorted, components, e, c, k, d, l);
    }
  }

  lemma OnRouteHas(sorted: seq<WorldEntry>, id: RouteId, e: WorldEntry)
    requires e in sorted && TakesRoute(e, id)
    ensures e in OnRoute(sorted, id)
  {
  }

  lemma SelectedElsewhere(sorted: seq<WorldEntry>, components: seq<Component>, e: WorldEntry, c: nat, k: nat, d: nat, l: nat)
    requires DistinctIdentities(sorted) && AreComponents(sorted, components) && RouteOf(e).Some?
    requires c < |components| && d < |components| && k < |components[c].selectors| && l < |components[d].selectors|
    requires components[c].selectors[k] == SelectorOf(e, k)
    requires components[d].selectors[l].world == e.world && components[d].selectors[l].uid == e.uid
    ensures d == c && l == k
  {
    hide OnRoute;
    SelectorSource(e, k);
    var s, t := components[c].selectors[k], components[d].selectors[l];
    assert SameSource(s, t) && SameSource(t, s);
    if d != c {
      assert components[c].id != components[d].id;
      RoutesApart(sorted, components[c].id, components[d].id, k, l);
    } else {
      OnRouteRouted(sorted, components[c].id);
      SelectorFrom(sorted, components[c].id, k);
      SelectorFrom(sorted, components[c].id, l);
      if k < l { OnRouteDistinct(sorted, components[c].id, k, l); }
      if l < k { OnRouteDistinct(sorted, components[c].id, l, k); }
    }
  }

  // ---- The budget plan's order ----

  /** The non-empty contents, in order. */
  ghost function NonEmpty(es: seq<WorldEntry>): seq<string> {
    if es == [] then []
    else (if es[0].content == "" then [] else [es[0].content]) + NonEmpty(es[1..])
  }

  ghost function ContentsOn(sorted: seq<WorldEntry>, id: RouteId): seq<string> {
    NonEmpty(OnRoute(sorted, id))
  }

  /** The routes the budget plan fills here; depth routes only when they are not skipped. */
  ghost predicate Planned(id: RouteId, skipDepth: bool) {
    id == Before || id == After || (id.AtDepth? && !skipDepth)
  }

  ghost predicate Grouped(sorted: seq<WorldEntry>, skipDepth: bool, groups: map<RouteId, seq<string>>) {
    forall id :: (if id in groups then groups[id] else []) == if Planned(id, skipDepth) then ContentsOn(sorted, id) else []
  }

  lemma ContentsMore(sorted: seq<WorldEntry>, e: WorldEntry, id: RouteId)
    ensures ContentsOn(sorted + [e], id)
         == (if TakesRoute(e, id) && e.content != "" then [e.content] else []) + ContentsOn(sorted, id)
  {
    hide OnRoute;
    var more := sorted + [e];
    OnRouteStep(more, id);
    assert more[..|more| - 1] == sorted;
    assert ([e] + OnRoute(sorted, id))[1..] == OnRoute(sorted, id);
    assert [] + ContentsOn(sorted, id) == ContentsOn(sorted, id);
  }

  lemma MoreGrouped(sorted: seq<WorldEntry>, skipDepth: bool, groups: map<RouteId, seq<string>>, e: WorldEntry)
    requires Grouped(sorted, skipDepth, groups)
    ensures e.content == "" || RouteOf(e).None? || !Planned(RouteOf(e).value.id, skipDepth) ==>
      Grouped(sorted + [e], skipDepth, groups)
    ensures e.content != "" && RouteOf(e).Some? && Planned(RouteOf(e).value.id, skipDepth) ==>
      var id := RouteOf(e).value.id;
      Grouped(sorted + [e], skipDepth, groups[id := [e.content] + (if id in groups then groups[id] else [])])
  {
    hide ContentsOn, RouteOf;
    forall id ensures ContentsOn(sorted + [e], id)
                   == (if TakesRoute(e, id) && e.content != "" then [e.content] else []) + ContentsOn(sorted, id)
    {
      ContentsMore(sorted, e, id);
    }
    assert forall s: seq<string> :: [] + s == s;
  }

  method GroupContents(entries: seq<WorldEntry>, skipDepth: bool) returns (groups: map<RouteId, seq<string>>)
    ensures Grouped(ByOrder(entries), skipDepth, groups)
  {
    hide Grouped, ByOrder;
    var sorted := ByOrder(entries);
    groups := map[];
    NothingGrouped(sorted, skipDepth);
    for n := 0 to |sorted|
      invariant Grouped(sorted[..n], skipDepth, groups)
    {
      var e := sorted[n];
      MoreGrouped(sorted[..n], skipDepth, groups, e);
      assert sorted[..n + 1] == sorted[..n] + [e];
      if e.content != "" {
        if e.position == 0 || e.position == 1 {
          var id := if e.position == 0 then Before else After;
          groups := groups[id := [e.content] + (if id in groups then groups[id] else [])];
        } else if !skipDepth && e.position == 4 {
          var depth := if e.depth.Some? then e.depth.value else DEFAULT_DEPTH;
          var id := AtDepth(depth, if 0 <= e.role <= 2 then e.role else 0);
          groups := groups[id := [e.content] + (if id in groups then groups[id] else [])];
        }
      }
    }
    assert sorted[..|sorted|] == sorted;
  }

  lemma NothingGrouped(sorted: seq<WorldEntry>, skipDepth: bool)
    ensures Grouped(sorted[..0], skipDepth, map[])
  {
    assert sorted[..0] == [];
    assert forall id :: OnRoute([], id) == [];
  }

  /** How many of the first `k` entries have content. */
  ghost function ContentsBefore(es: seq<WorldEntry>, k: nat): nat
    requires k <= |es|
  {
    if k == 0 then 0 else (if es[0].content == "" then 0 else 1) + ContentsBefore(es[1..], k - 1)
  }

  lemma {:induction false} ContentPlace(es: seq<WorldEntry>, k: nat)
    requires k < |es| && es[k].content != ""
    ensures ContentsBefore(es, k) < |NonEmpty(es)| && NonEmpty(es)[ContentsBefore(es, k)] == es[k].content
  {
    if k > 0 { ContentPlace(es[1..], k - 1); }
  }

  lemma {:induction false} ContentPlaces(es: seq<WorldEntry>, j: nat, k: nat)
    requires j <= k <= |es|
    ensures ContentsBefore(es, j) <= ContentsBefore(es, k)
    ensures j < k && es[j].content != "" ==> ContentsBefore(es, j) < ContentsBefore(es, k)
    ensures ContentsBefore(es, |es|) == |NonEmpty(es)|
    decreases |es|
  {
    if es != [] {
      ContentPlaces(es[1..], if j > 0 then j - 1 else 0, if k > 0 then k - 1 else 0);
    }
  }

  /** For direct and depth routes, the order of a component's selectors is the order in which the budget plan
      concatenates the contents of the same entries. */
  lemma SameAssemblyOrder(
      entries: seq<WorldEntry>, components: seq<Component>, groups: map<RouteId, seq<string>>, skipDepth: bool, c: nat, j: nat, k: nat)
    returns (d: WorldEntry, e: WorldEntry)
    requires AreComponents(ByOrder(entries), components) && Grouped(ByOrder(entries), skipDepth, groups)
    requires c < |components| && Planned(components[c].id, skipDepth) && j < k < |components[c].selectors|
    ensures RouteOf(d).Some? && RouteOf(e).Some?
    ensures components[c].selectors[j] == SelectorOf(d, j) && components[c].selectors[k] == SelectorOf(e, k)
    ensures var es := OnRoute(ByOrder(entries), components[c].id);
      && j < |es| && k < |es| && es[j] == d && es[k] == e
      && (d.content != "" && e.content != "" ==>
            var contents := if components[c].id in groups then groups[components[c].id] else [];
            && ContentsBefore(es, j) < ContentsBefore(es, k) < |contents|
            && contents[ContentsBefore(es, j)] == d.content && contents[ContentsBefore(es, k)] == e.content)
  {
    hide OnRoute, ByOrder;
    var sorted, id := ByOrder(entries), components[c].id;
    OnRouteRouted(sorted, id);
    SelectorFrom(sorted, id, j);
    SelectorFrom(sorted, id, k);
    var es := OnRoute(sorted, id);
    d, e := es[j], es[k];
    if d.content != "" && e.content != "" {
      ContentPlace(es, j);
      ContentPlace(es, k);
      ContentPlaces(es, j, k);
    }
  }
}
